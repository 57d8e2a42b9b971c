/** The memory-dump scanner: every occurrence of the pattern, with its page number and
    offset computed by masking and shifting. */
module DumpScanner {
  import opened Pattern

  // ----- Python's integer bit operations

  function Size(a: int): (n: nat) {
    if a >= 0 then a else -a - 1
  }

  /** `a & b` on integers of any size: negative numbers have infinitely many leading ones. */
  function BitAnd(a: int, b: int): (c: int)
    decreases Size(a) + Size(b)
  {
    if a == 0 || b == 0 then 0
    else if a == -1 then b
    else if b == -1 then a
    else 2 * BitAnd(a / 2, b / 2) + (a % 2) * (b % 2)
  }

  function Pow2(k: nat): (p: int)
    ensures p > 0
  {
    if k == 0 then 1 else 2 * Pow2(k - 1)
  }

  function ShiftLeft(a: int, k: nat): (c: int) {
    if k == 0 then a else 2 * ShiftLeft(a, k - 1)
  }

  function ShiftRight(a: int, k: nat): (c: int) {
    if k == 0 then a else ShiftRight(a, k - 1) / 2
  }

  function Complement(a: int): (c: int) {
    -a - 1
  }

  const PAGE_SIZE_SHIFT := 12
  const PAGE_OFFSET_MASK := ShiftLeft(1, PAGE_SIZE_SHIFT) - 1
  const PAGE_NUMBER_MASK := Complement(PAGE_OFFSET_MASK)

  /** Bit k of a. */
  function Bit(a: int, k: nat): (b: bool)
    decreases k
  {
    if k == 0 then a % 2 == 1 else Bit(a / 2, k - 1)
  }

  lemma {:induction false} BitOfConstant(k: nat)
    ensures !Bit(0, k) && Bit(-1, k)
  {
    if k > 0 { BitOfConstant(k - 1); }
  }

  /** BitAnd is conjunction bit by bit. */
  lemma {:induction false} BitAndBits(a: int, b: int, k: nat)
    ensures Bit(BitAnd(a, b), k) == (Bit(a, k) && Bit(b, k))
    decreases k
  {
    BitOfConstant(k);
    if a != 0 && b != 0 && a != -1 && b != -1 {
      var c := BitAnd(a, b);
      assert (a % 2) * (b % 2) == if a % 2 == 1 && b % 2 == 1 then 1 else 0;
      assert c / 2 == BitAnd(a / 2, b / 2) && c % 2 == (a % 2) * (b % 2);
      if k > 0 { BitAndBits(a / 2, b / 2, k - 1); }
    }
  }

  lemma {:induction false} DivModUnique(x: int, m: int, q: int, r: int)
    requires m > 0 && x == m * q + r && 0 <= r < m
    ensures x / m == q && x % m == r
  {
    var d := q - x / m;
    assert (d >= 1 ==> m * d >= m) && (d <= -1 ==> m * d <= -m);
    assert m * d == x % m - r by { assert m * d == m * q - m * (x / m); }
  }

  /** Halving a number and its modulus together. */
  lemma {:induction false} DivModDouble(i: int, m: int)
    requires m > 0
    ensures i % (2 * m) == 2 * ((i / 2) % m) + i % 2
    ensures i / (2 * m) == (i / 2) / m
  {
    var h := i / 2;
    var q, r := h / m, h % m;
    assert h == m * q + r;
    assert (2 * m) * q == 2 * (m * q);
    DivModUnique(i, 2 * m, q, 2 * r + i % 2);
  }

  /** Masking with k low ones is the remainder, with the complement it is the rest. */
  lemma {:induction false} MaskIsMod(i: int, k: nat)
    ensures BitAnd(i, Pow2(k) - 1) == i % Pow2(k)
    ensures BitAnd(i, -Pow2(k)) == i - i % Pow2(k)
    decreases k
  {
    hide BitAnd;
    if k == 0 {
      MaskBase(i);
    } else {
      var m := Pow2(k - 1);
      MaskIsMod(i / 2, k - 1);
      DivModDouble(i, m);
      MaskStep(i, m);
    }
  }

  lemma {:induction false} MaskBase(i: int)
    ensures BitAnd(i, 0) == 0 && BitAnd(i, -1) == i
  {
  }

  /** One unfolding of BitAnd, also where one operand is 0 or -1. */
  lemma {:induction false} MaskStep(a: int, m: int)
    requires m > 0
    ensures BitAnd(a, 2 * m - 1) == 2 * BitAnd(a / 2, m - 1) + a % 2
    ensures BitAnd(a, -(2 * m)) == 2 * BitAnd(a / 2, -m)
  {
    assert (2 * m - 1) / 2 == m - 1 && (2 * m - 1) % 2 == 1;
    assert (-(2 * m)) / 2 == -m && (-(2 * m)) % 2 == 0;
  }

  lemma {:induction false} MulSplit(m: int, h: int, l: int)
    ensures m * (2 * h + l) == (2 * m) * h + m * l
  {
    assert m * (2 * h) == (2 * m) * h;
  }

  lemma {:induction false} DivHalved(x: int, m: int, q: int, r: int, h: int, l: int)
    requires m > 0 && x == m * q + r && 0 <= r < m && q == 2 * h + l && (l == 0 || l == 1)
    ensures x / (2 * m) == h
  {
    MulSplit(m, h, l);
    if l == 0 {
      assert x == (2 * m) * h + r;
      DivModUnique(x, 2 * m, h, r);
    } else {
      assert x == (2 * m) * h + (m + r);
      DivModUnique(x, 2 * m, h, m + r);
    }
  }

  lemma {:induction false} DivTwice(i: int, m: int)
    requires m > 0
    ensures (i / m) / 2 == i / (2 * m)
  {
    var q := i / m;
    DivHalved(i, m, q, i % m, q / 2, q % 2);
  }

  lemma {:induction false} ShiftIsDiv(i: int, k: nat)
    ensures ShiftRight(i, k) == i / Pow2(k)
    decreases k
  {
    if k > 0 {
      ShiftIsDiv(i, k - 1);
      DivTwice(i, Pow2(k - 1));
    }
  }

  lemma {:induction false} Masks()
    ensures PAGE_OFFSET_MASK == Pow2(12) - 1 && PAGE_NUMBER_MASK == -Pow2(12) && Pow2(12) == 4096
  {
    assert Pow2(4) == 16 && ShiftLeft(1, 4) == 16;
    assert Pow2(8) == 256 && ShiftLeft(1, 8) == 256;
  }

  /** The page split of address i: the quotient and remainder by 4096. */
  lemma {:induction false} SplitIsDivMod(i: int)
    ensures BitAnd(i, PAGE_OFFSET_MASK) == i % 4096
    ensures ShiftRight(BitAnd(i, PAGE_NUMBER_MASK), PAGE_SIZE_SHIFT) == i / 4096
  {
    hide BitAnd, ShiftRight, Pow2;
    Masks();
    MaskIsMod(i, 12);
    ShiftIsDiv(i - i % 4096, 12);
  }

  /** The split recombines to i, and no other split does. */
  lemma {:induction false} SplitRecombines(i: int, number: int, offset: int)
    ensures 0 <= offset < 4096 && number * 4096 + offset == i <==>
              && offset == BitAnd(i, PAGE_OFFSET_MASK)
              && number == ShiftRight(BitAnd(i, PAGE_NUMBER_MASK), PAGE_SIZE_SHIFT)
  {
    hide BitAnd, ShiftRight;
    SplitIsDivMod(i);
  }

  // ----- searching

  /** The pattern starts at i. */
  predicate Occurs(dump: string, i: nat) {
    i + 4 <= |dump| && dump[i..i + 4] == LEAK
  }

  lemma {:induction false} OccursSpelt(dump: string, i: nat)
    ensures Occurs(dump, i) <==>
              i + 4 <= |dump| && dump[i] == 'L' && dump[i + 1] == 'E' && dump[i + 2] == 'A' && dump[i + 3] == 'K'
  {
    if i + 4 <= |dump| {
      var w := dump[i..i + 4];
      assert w == [dump[i], dump[i + 1], dump[i + 2], dump[i + 3]];
      assert w == "LEAK" <==> w[0] == 'L' && w[1] == 'E' && w[2] == 'A' && w[3] == 'K';
    }
  }

  /** mmap.find: the first occurrence at or after `from`, or -1. */
  function Find(dump: string, from: nat): (i: int)
    ensures i == -1 || (from <= i && i + 4 <= |dump| && Occurs(dump, i))
    ensures forall j: nat :: from <= j && (i == -1 || j < i) ==> !Occurs(dump, j)
    decreases |dump| - from
  {
    if from + 4 > |dump| then -1
    else if Occurs(dump, from) then from
    else Find(dump, from + 1)
  }

  datatype Hit = Hit(addr: nat, pageNumber: int, pageOffset: int)

  predicate Listed(hits: seq<Hit>, addr: nat) {
    exists k :: 0 <= k < |hits| && hits[k].addr == addr
  }

  lemma {:induction false} ListedStays(hits: seq<Hit>, h: Hit)
    ensures Listed(hits + [h], h.addr)
    ensures forall j: nat :: Listed(hits, j) ==> Listed(hits + [h], j)
  {
    assert (hits + [h])[|hits|] == h;
    forall j: nat | Listed(hits, j) ensures Listed(hits + [h], j) {
      var k :| 0 <= k < |hits| && hits[k].addr == j;
      assert (hits + [h])[k].addr == j;
    }
  }

  /** The script's loop. */
  method Scan(dump: string) returns (hits: seq<Hit>)
    ensures forall k :: 0 <= k < |hits| ==>
              var i := hits[k].addr;
              i + 4 <= |dump| && dump[i] == 'L' && dump[i + 1] == 'E' && dump[i + 2] == 'A' && dump[i + 3] == 'K'
    ensures forall i: nat {:trigger dump[i]} ::
              i + 4 <= |dump| && dump[i] == 'L' && dump[i + 1] == 'E' && dump[i + 2] == 'A' && dump[i + 3] == 'K' ==>
                exists k :: 0 <= k < |hits| && hits[k].addr == i
    ensures forall k, l :: 0 <= k < l < |hits| ==> hits[k].addr < hits[l].addr
    ensures forall k :: 0 <= k < |hits| ==>
              0 <= hits[k].pageOffset < 4096 && hits[k].pageNumber * 4096 + hits[k].pageOffset == hits[k].addr
  {
    hide Occurs, BitAnd, ShiftRight, Find, Listed;
    hits := [];
    var i := Find(dump, 0);
    while i != -1
      invariant i == -1 || (0 <= i < |dump| && Occurs(dump, i))
      invariant forall k :: 0 <= k < |hits| ==> Occurs(dump, hits[k].addr) && (i == -1 || hits[k].addr < i)
      invariant forall j: nat :: Occurs(dump, j) && (i == -1 || j < i) ==> Listed(hits, j)
      invariant forall k, l :: 0 <= k < l < |hits| ==> hits[k].addr < hits[l].addr
      invariant forall k :: 0 <= k < |hits| ==>
        0 <= hits[k].pageOffset < 4096 && hits[k].pageNumber * 4096 + hits[k].pageOffset == hits[k].addr
      decreases if i == -1 then 0 else |dump| - i
    {
      var pageOffset := BitAnd(i, PAGE_OFFSET_MASK);
      var pageNumber := ShiftRight(BitAnd(i, PAGE_NUMBER_MASK), PAGE_SIZE_SHIFT);
      SplitRecombines(i, pageNumber, pageOffset);
      ListedStays(hits, Hit(i, pageNumber, pageOffset));
      hits := hits + [Hit(i, pageNumber, pageOffset)];
      i := Find(dump, i + 1);
    }
    ListedExactly(dump, hits);
  }

  lemma {:induction false} ListedExactly(dump: string, hits: seq<Hit>)
    requires forall k :: 0 <= k < |hits| ==> Occurs(dump, hits[k].addr)
    requires forall j: nat :: Occurs(dump, j) ==> Listed(hits, j)
    ensures forall k :: 0 <= k < |hits| ==>
              var i := hits[k].addr;
              i + 4 <= |dump| && dump[i] == 'L' && dump[i + 1] == 'E' && dump[i + 2] == 'A' && dump[i + 3] == 'K'
    ensures forall i: nat {:trigger dump[i]} ::
              i + 4 <= |dump| && dump[i] == 'L' && dump[i + 1] == 'E' && dump[i + 2] == 'A' && dump[i + 3] == 'K' ==>
                exists k :: 0 <= k < |hits| && hits[k].addr == i
  {
    hide Occurs;
    forall k | 0 <= k < |hits|
      ensures var i := hits[k].addr;
              i + 4 <= |dump| && dump[i] == 'L' && dump[i + 1] == 'E' && dump[i + 2] == 'A' && dump[i + 3] == 'K'
    {
      OccursSpelt(dump, hits[k].addr);
    }
    forall i: nat {:trigger dump[i]} |
      i + 4 <= |dump| && dump[i] == 'L' && dump[i + 1] == 'E' && dump[i + 2] == 'A' && dump[i + 3] == 'K'
      ensures exists k :: 0 <= k < |hits| && hits[k].addr == i
    {
      OccursSpelt(dump, i);
      assert Listed(hits, i);
    }
  }

  /** Occurrences do not overlap. */
  lemma {:induction false} OccurrencesApart(dump: string, i: nat, j: nat)
    requires Occurs(dump, i) && Occurs(dump, j) && i < j
    ensures j >= i + 4
  {
    assert dump[j] == dump[j..j + 4][0] == 'L';
    assert dump[i + 1] == dump[i..i + 4][1] && dump[i + 2] == dump[i..i + 4][2] && dump[i + 3] == dump[i..i + 4][3];
  }

  /** The addresses listed by a scan from `from` that restarts `step` after each hit. */
  function Hits(dump: string, from: nat, step: nat): (h: seq<nat>)
    requires step > 0
    decreases |dump| - from
  {
    var i := Find(dump, from);
    if i == -1 then [] else [i] + Hits(dump, i + step, step)
  }

  /** Nothing starts inside an occurrence, so both restarts find the same next hit. */
  lemma {:induction false} SameNextHit(dump: string, i: nat)
    requires Occurs(dump, i)
    ensures Find(dump, i + 1) == Find(dump, i + 4)
  {
    hide Occurs;
    var a, b := Find(dump, i + 1), Find(dump, i + 4);
    if a >= 0 { OccurrencesApart(dump, i, a); }
  }

  /** Only the next hit matters to the list. */
  lemma {:induction false} HitsFromNext(dump: string, a: nat, b: nat, step: nat)
    requires step > 0 && Find(dump, a) == Find(dump, b)
    ensures Hits(dump, a, step) == Hits(dump, b, step)
  {
  }

  /** Restarting one byte or four bytes after each hit gives the same list. */
  lemma {:induction false} SkipFour(dump: string, from: nat)
    ensures Hits(dump, from, 1) == Hits(dump, from, 4)
    decreases |dump| - from
  {
    var i := Find(dump, from);
    if i >= 0 {
      SameNextHit(dump, i);
      HitsFromNext(dump, i + 1, i + 4, 1);
      SkipFour(dump, i + 4);
    }
  }
}
