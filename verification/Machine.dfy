/**
 Machine arithmetic: reduction to 64 and 32 bits and conversion to a C `int`.
 The contracts state the results near the range, which is where the models use them.
 */
module Machine {

  /** Reduction modulo 2^64. */
  function U64(x: int): (r: nat)
    ensures r < 0x1_0000_0000_0000_0000
    ensures 0 <= x < 0x1_0000_0000_0000_0000 ==> r == x
    ensures 0 - 0x1_0000_0000_0000_0000 <= x < 0 ==> r == x + 0x1_0000_0000_0000_0000
    ensures 0x1_0000_0000_0000_0000 <= x < 2 * 0x1_0000_0000_0000_0000 ==> r == x - 0x1_0000_0000_0000_0000
    decreases x < 0, if x < 0 then -x else x
  {
    if x < 0 then U64(x + 0x1_0000_0000_0000_0000)
    else if x < 0x1_0000_0000_0000_0000 then x
    else U64(x - 0x1_0000_0000_0000_0000)
  }

  /** Reduction modulo 2^32. */
  function U32(x: int): (r: nat)
    ensures r < 0x1_0000_0000
    ensures 0 <= x < 0x1_0000_0000 ==> r == x
    ensures 0 - 0x1_0000_0000 <= x < 0 ==> r == x + 0x1_0000_0000
    ensures 0x1_0000_0000 <= x < 2 * 0x1_0000_0000 ==> r == x - 0x1_0000_0000
    decreases x < 0, if x < 0 then -x else x
  {
    if x < 0 then U32(x + 0x1_0000_0000)
    else if x < 0x1_0000_0000 then x
    else U32(x - 0x1_0000_0000)
  }

  /** Conversion to a C `int`. */
  function Int32(x: int): int {
    var low := U32(x);
    if low < 0x8000_0000 then low else low - 0x1_0000_0000
  }

  lemma {:induction false} Int32Negates(x: int)
    ensures Int32(x) > 0 ==> Int32(-x) <= 0
  {
    U32Negates(x);
  }

  lemma {:induction false} U32Negates(x: int)
    ensures U32(x) + U32(-x) == if U32(x) == 0 then 0 else 0x1_0000_0000
    decreases x < 0, if x < 0 then -x else x
  {
    if x < 0 {
      U32Negates(-x);
    } else if x >= 0x1_0000_0000 {
      U32Negates(x - 0x1_0000_0000);
      assert U32(-x) == U32(-x + 0x1_0000_0000);
    }
  }

  /** A value is its residue and a multiple of 2^32. */
  lemma {:induction false} U32Split(x: int) returns (q: int)
    ensures x == q * 0x1_0000_0000 + U32(x)
    decreases x < 0, if x < 0 then -x else x
  {
    if x < 0 {
      q := U32Split(x + 0x1_0000_0000);
      q := q - 1;
    } else if x < 0x1_0000_0000 {
      q := 0;
    } else {
      q := U32Split(x - 0x1_0000_0000);
      q := q + 1;
    }
  }

  lemma U32Unique(x: int, q: int, r: nat)
    requires r < 0x1_0000_0000 && x == q * 0x1_0000_0000 + r
    ensures U32(x) == r
  {
    var p := U32Split(x);
    assert (p - q) * 0x1_0000_0000 == r - U32(x);
  }

  /** The residue of a difference is that of the residues' difference. */
  lemma U32Minus(x: int, y: int)
    ensures U32(x - y) == if U32(x) >= U32(y) then U32(x) - U32(y) else U32(x) - U32(y) + 0x1_0000_0000
  {
    var p := U32Split(x);
    var q := U32Split(y);
    if U32(x) >= U32(y) {
      U32Unique(x - y, p - q, U32(x) - U32(y));
    } else {
      U32Unique(x - y, p - q - 1, U32(x) - U32(y) + 0x1_0000_0000);
    }
  }
}
