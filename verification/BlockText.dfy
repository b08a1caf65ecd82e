/**
 The printed form of a file's block list: debugfs writes it (dump_extents and
 list_blocks_proc in debugfs/debugfs.c), the block query reads it back
 (ext_get_inode_datablocks in src/blk.c).
 */
module BlockText {
  import opened Options

  // ------------------------------------------------------------ decimal numbers

  predicate IsDigit(c: char) {
    '0' <= c <= '9'
  }

  predicate AllDigits(s: string) {
    forall c :: c in s ==> IsDigit(c)
  }

  function DigitChar(d: nat): (c: char)
    requires d < 10
    ensures IsDigit(c) && c as int == '0' as int + d
  {
    ('0' as int + d) as char
  }

  /** A number as `%llu` prints it. */
  function Decimal(n: nat): (s: string)
    ensures s != [] && AllDigits(s)
  {
    if n < 10 then [DigitChar(n)] else Decimal(n / 10) + [DigitChar(n % 10)]
  }

  /** `strtoull` on a run of digits. */
  function Value(s: string): nat
    requires AllDigits(s)
  {
    if s == [] then 0
    else
      assert s[|s| - 1] in s;
      10 * Value(s[..|s| - 1]) + (s[|s| - 1] as int - '0' as int)
  }

  lemma {:induction false} DecimalValue(n: nat)
    ensures Value(Decimal(n)) == n
  {
    if n >= 10 {
      DecimalValue(n / 10);
      var s := Decimal(n);
      assert s[..|s| - 1] == Decimal(n / 10);
    } else {
      assert Decimal(n)[..0] == [];
    }
  }

  /** The digits are those of the decimal system, the most significant first. */
  lemma DecimalSample()
    ensures Decimal(1029) == "1029" && Decimal(0) == "0"
  {
    assert DigitChar(1) == '1' && DigitChar(0) == '0' && DigitChar(2) == '2' && DigitChar(9) == '9';
    assert Decimal(1) == "1";
    assert Decimal(10) == Decimal(1) + [DigitChar(0)] == "10";
    assert Decimal(102) == Decimal(10) + [DigitChar(2)] == "102";
    assert Decimal(1029) == Decimal(102) + [DigitChar(9)] == "1029";
  }

  /** How many leading characters are digits. */
  function DigitRun(s: string): (n: nat)
    ensures n <= |s| && AllDigits(s[..n])
    ensures n < |s| ==> !IsDigit(s[n])
  {
    if s == [] || !IsDigit(s[0]) then 0
    else
      var n := DigitRun(s[1..]);
      assert s[..n + 1] == [s[0]] + s[1..][..n];
      n + 1
  }

  lemma {:induction false} DigitRunOf(d: string, rest: string)
    requires AllDigits(d) && (rest == [] || !IsDigit(rest[0]))
    ensures DigitRun(d + rest) == |d| && (d + rest)[..|d|] == d && (d + rest)[|d|..] == rest
  {
    if d == [] {
      assert d + rest == rest;
    } else {
      assert d[0] in d;
      DigitRunOf(d[1..], rest);
      assert (d + rest)[1..] == d[1..] + rest;
    }
  }

  // ------------------------------------------------------------------- reading

  datatype Scan = Nothing | One(first: nat) | Two(first: nat, last: nat)

  /** `sscanf(token, "%[0-9]-%[0-9]", start, end)` with the numbers converted. */
  function ScanRange(s: string): Scan {
    var n := DigitRun(s);
    if n == 0 then Nothing
    else if n < |s| && s[n] == '-' && DigitRun(s[n + 1..]) > 0 then
      Two(Value(s[..n]), Value(s[n + 1..][..DigitRun(s[n + 1..])]))
    else One(Value(s[..n]))
  }

  function From(first: nat, last: nat): (r: seq<nat>)
    decreases last + 1 - first
  {
    if first > last then [] else [first] + From(first + 1, last)
  }

  function SkipSpaces(s: string): string {
    if s != [] && s[0] == ' ' then SkipSpaces(s[1..]) else s
  }

  function FindChar(s: string, c: char): (n: nat)
    ensures n <= |s| && c !in s[..n] && (n < |s| ==> s[n] == c)
  {
    if s == [] || s[0] == c then 0
    else
      var n := FindChar(s[1..], c);
      assert s[..n + 1] == [s[0]] + s[1..][..n];
      n + 1
  }

  lemma {:induction false} FindCharOf(a: string, c: char, rest: string)
    requires c !in a
    ensures FindChar(a + [c] + rest, c) == |a|
    ensures (a + [c] + rest)[..|a|] == a && (a + [c] + rest)[|a| + 1..] == rest
  {
    if a != [] {
      FindCharOf(a[1..], c, rest);
      assert (a + [c] + rest)[1..] == a[1..] + [c] + rest;
    }
  }

  datatype Item = Skipped | NoColon | NoNumber | Found(blocks: seq<nat>)

  predicate IsIndexToken(t: string) {
    |t| >= 4 && t[..4] == "(ETB"
  }

  function ItemOf(scan: Scan): Item {
    match scan
    case Nothing => NoNumber
    case One(a) => Found([a])
    case Two(a, b) => Found(From(a, b))
  }

  /** What one token stands for. */
  function ReadToken(token: string): Item {
    var t := SkipSpaces(token);
    if IsIndexToken(t) then Skipped
    else if FindChar(t, ':') == |t| then NoColon
    else ItemOf(ScanRange(SkipSpaces(t[FindChar(t, ':') + 1..])))
  }

  /** Two numbers need a digit on both sides of the hyphen; what follows the digits is ignored. */
  lemma ScanForms(d: string, e: string, rest: string)
    requires AllDigits(d) && d != [] && AllDigits(e) && (rest == [] || !IsDigit(rest[0]))
    ensures e != [] ==> ScanRange(d + ("-" + (e + rest))) == Two(Value(d), Value(e))
    ensures e == [] ==> ScanRange(d + ("-" + rest)) == One(Value(d))
    ensures rest == [] || rest[0] != '-' ==> ScanRange(d + rest) == One(Value(d))
  {
    hide DigitRun, Value, AllDigits;
    DigitRunOf(d, rest);
    DigitRunOf(d, "-" + (e + rest));
    DigitRunOf(e, rest);
    assert ("-" + (e + rest))[1..] == e + rest;
    assert (d + ("-" + (e + rest)))[|d| + 1..] == e + rest;
    assert e == [] ==> e + rest == rest;
  }

  lemma ScanNothing(s: string)
    ensures ScanRange(s).Nothing? <==> s == [] || !IsDigit(s[0])
  {
    hide Value;
  }

  /** A token for a block of the extent tree, whatever blanks precede it and however it is cut behind these four characters. */
  lemma {:induction false} IndexToken(blanks: string, rest: string)
    requires forall c :: c in blanks ==> c == ' '
    ensures ReadToken(blanks + ("(ETB" + rest)) == Skipped
  {
    hide IsIndexToken;
    SkipsBlanks(blanks, "(ETB" + rest);
    IndexMark(rest);
  }

  lemma IndexMark(rest: string)
    ensures IsIndexToken("(ETB" + rest)
  {
    assert ("(ETB" + rest)[..4] == "(ETB";
  }

  lemma {:induction false} SkipsBlanks(blanks: string, rest: string)
    requires (forall c :: c in blanks ==> c == ' ') && (rest == [] || rest[0] != ' ')
    ensures SkipSpaces(blanks + rest) == rest
    decreases |blanks|
  {
    if blanks == [] {
      assert blanks + rest == rest;
    } else {
      assert blanks[0] in blanks && (blanks + rest)[1..] == blanks[1..] + rest;
      assert forall c :: c in blanks[1..] ==> c in blanks;
      SkipsBlanks(blanks[1..], rest);
    }
  }

  /** The blocks read from a sequence of tokens, and whether all of them were understood. */
  function ReadTokens(ts: seq<string>): (seq<nat>, bool) {
    if ts == [] then ([], true)
    else
      var rest := ReadTokens(ts[1..]);
      match ReadToken(ts[0])
      case Skipped => rest
      case NoColon => ([], false)
      case NoNumber => (rest.0, false)
      case Found(b) => (b + rest.0, rest.1)
  }

  function SkipCommas(s: string): (r: string)
    ensures |r| <= |s| && (r != [] ==> r[0] != ',')
  {
    if s != [] && s[0] == ',' then SkipCommas(s[1..]) else s
  }

  function AfterToken(d: string): (r: string)
    ensures d != [] ==> |r| < |d|
  {
    var n := FindChar(d, ',');
    if n < |d| then d[n + 1..] else []
  }

  /** All the tokens `strtok` finds between commas. */
  function Tokens(s: string): seq<string>
    decreases |s|
  {
    var d := SkipCommas(s);
    if d == [] then [] else [d[..FindChar(d, ',')]] + Tokens(AfterToken(d))
  }

  /** The text without its commas. */
  ghost function NoCommas(s: string): string {
    if s == [] then [] else (if s[0] == ',' then [] else [s[0]]) + NoCommas(s[1..])
  }

  ghost function Joined(ts: seq<string>): string {
    if ts == [] then [] else ts[0] + Joined(ts[1..])
  }

  lemma {:induction false} NoCommasFront(a: string, b: string)
    requires ',' !in a
    ensures NoCommas(a + b) == a + NoCommas(b)
    decreases |a|
  {
    if a == [] {
      assert a + b == b;
    } else {
      assert (a + b)[1..] == a[1..] + b;
      NoCommasFront(a[1..], b);
    }
  }

  lemma {:induction false} NoCommasSkip(s: string)
    ensures NoCommas(SkipCommas(s)) == NoCommas(s)
  {
    if s != [] && s[0] == ',' {
      NoCommasSkip(s[1..]);
    }
  }

  /** The tokens are what lies between commas: none is empty or has a comma, and nothing else is lost. */
  lemma {:induction false} TokensExact(s: string)
    ensures forall t :: t in Tokens(s) ==> t != [] && ',' !in t
    ensures Joined(Tokens(s)) == NoCommas(s)
    decreases |s|
  {
    hide FindChar, NoCommas, SkipCommas;
    NoCommasSkip(s);
    var d := SkipCommas(s);
    if d == [] {
      NoCommasNone();
    } else {
      var n := FindChar(d, ',');
      var t, rest := d[..n], AfterToken(d);
      TokensExact(rest);
      assert n > 0;
      NoCommasFront(t, d[n..]);
      assert d == t + d[n..];
      NoCommasAfter(d);
      assert Tokens(s)[1..] == Tokens(rest);
    }
  }

  lemma NoCommasNone()
    ensures NoCommas([]) == []
  {
  }

  lemma NoCommasAfter(d: string)
    ensures NoCommas(d[FindChar(d, ',')..]) == NoCommas(AfterToken(d))
  {
    var n := FindChar(d, ',');
    if n < |d| {
      assert d[n..][1..] == d[n + 1..];
    } else {
      assert d[n..] == [];
    }
  }

  /** One call of `strtok`. */
  method NextToken(s: string) returns (token: Option<string>, rest: string)
    ensures token.None? <==> Tokens(s) == []
    ensures token.Some? ==> Tokens(s) == [token.value] + Tokens(rest) && |rest| < |s|
  {
    var d := SkipCommas(s);
    if d == [] {
      return None, d;
    }
    return Some(d[..FindChar(d, ',')]), AfterToken(d);
  }

  /** The loop that unrolls a range of blocks. */
  method PushRange(first: nat, last: nat, blocks: seq<nat>) returns (r: seq<nat>)
    ensures r == blocks + From(first, last)
  {
    r := blocks;
    var i := first;
    while i <= last
      invariant r + From(i, last) == blocks + From(first, last)
      decreases last + 1 - i
    {
      r := r + [i];
      i := i + 1;
    }
  }

  /** The body of the token loop: the blocks a token names are pushed behind those read before. */
  method TakeToken(token: string, blocks: seq<nat>) returns (item: Item, r: seq<nat>)
    ensures item == ReadToken(token)
    ensures r == blocks + if item.Found? then item.blocks else []
  {
    hide FindChar, ScanRange, SkipSpaces, From;
    r := blocks;
    var t := SkipSpaces(token);
    if IsIndexToken(t) {
      return Skipped, r;
    }
    if FindChar(t, ':') == |t| {
      return NoColon, r;
    }
    var scan := ScanRange(SkipSpaces(t[FindChar(t, ':') + 1..]));
    match scan {
      case Nothing =>
      case One(a) => r := r + [a];
      case Two(a, b) => r := PushRange(a, b, r);
    }
    item := ItemOf(scan);
  }

  /** The token loop over the line behind the header. `matched` starts at 1 and ends at 2 on success. */
  method ReadLine(line: string) returns (matched: int, marked: bool, blocks: seq<nat>)
    ensures marked <==> Tokens(line) != []
    ensures !marked ==> matched == 1 && blocks == []
    ensures marked ==> blocks == ReadTokens(Tokens(line)).0 && matched == if ReadTokens(Tokens(line)).1 then 2 else 0
  {
    hide Tokens, ReadTokens, ReadToken;
    matched, marked, blocks := 1, false, [];
    var token, rest := NextToken(line);
    if token.None? {
      return;
    }
    marked := true;
    ghost var left := Tokens(line);
    while token.Some?
      invariant matched == 1 || matched == -1
      invariant left == if token.Some? then [token.value] + Tokens(rest) else []
      invariant ReadTokens(Tokens(line)).0 == blocks + ReadTokens(left).0
      invariant ReadTokens(Tokens(line)).1 == (matched == 1 && ReadTokens(left).1)
      decreases |left|
    {
      ReadTokensStep(token.value, Tokens(rest));
      var item;
      item, blocks := TakeToken(token.value, blocks);
      if item.NoColon? {
        matched := -1;
        break;
      }
      if item.NoNumber? {
        matched := -1;
      }
      left := Tokens(rest);
      token, rest := NextToken(rest);
    }
    NoneRead();
    matched := matched + 1;
  }

  lemma NoneRead()
    ensures ReadTokens([]) == ([], true)
  {
  }

  lemma ReadTokensStep(t: string, ts: seq<string>)
    ensures ReadTokens([t] + ts) ==
      match ReadToken(t)
      case Skipped => ReadTokens(ts)
      case NoColon => ([], false)
      case NoNumber => (ReadTokens(ts).0, false)
      case Found(b) => (b + ReadTokens(ts).0, ReadTokens(ts).1)
  {
    assert ([t] + ts)[1..] == ts;
  }
}
