/** The infinite word LEAKLEAK... that the traffic tools send and check. */
module Pattern {

  const LEAK := "LEAK"

  /** Letter i of the word. */
  function At(i: int): (c: char) {
    LEAK[i % 4]
  }

  /** The n letters from position `start` on. */
  function Piece(start: int, n: nat): (s: string)
    ensures |s| == n && forall i :: 0 <= i < n ==> s[i] == At(start + i)
  {
    if n == 0 then "" else Piece(start, n - 1) + [At(start + n - 1)]
  }

  /** How many bytes differ from the word read from position `start` on. */
  function Mismatches(s: string, start: int): (m: nat) {
    if s == "" then 0
    else
      var l := |s| - 1;
      Mismatches(s[..l], start) + if s[l] == At(start + l) then 0 else 1
  }

  /** The word spelt out. */
  lemma {:induction false} Letters(q: int)
    ensures At(4 * q) == 'L' && At(4 * q + 1) == 'E' && At(4 * q + 2) == 'A' && At(4 * q + 3) == 'K'
  {
    assert (4 * q) % 4 == 0 && (4 * q + 1) % 4 == 1 && (4 * q + 2) % 4 == 2 && (4 * q + 3) % 4 == 3;
  }

  lemma {:induction false} Spelt(s: string, start: int)
    requires s == Piece(start, |s|)
    ensures forall i :: 0 <= i < |s| ==> s[i] == "LEAK"[(start + i) % 4]
  {
    hide Piece;
  }

  lemma {:induction false} AtPeriod(a: int, b: int)
    ensures At(a) == At(b) <==> (a - b) % 4 == 0
  {
  }

  lemma {:induction false} LetterAt(idx: nat, i: int)
    requires idx == i % 4
    ensures LEAK[idx] == At(i)
  {
  }

  lemma {:induction false} NextIndex(idx: nat, i: int)
    requires idx == i % 4
    ensures (idx + 1) % 4 == (i + 1) % 4
  {
  }

  lemma {:induction false} MismatchesPeriod(s: string, a: int, b: int)
    requires (a - b) % 4 == 0
    ensures Mismatches(s, a) == Mismatches(s, b)
  {
    hide At;
    if s != "" {
      var l := |s| - 1;
      MismatchesPeriod(s[..l], a, b);
      AtPeriod(a + l, b + l);
    }
  }

  lemma {:induction false} MismatchesConcat(a: string, b: string, start: int)
    ensures Mismatches(a + b, start) == Mismatches(a, start) + Mismatches(b, start + |a|)
  {
    hide At;
    if b == "" {
      assert a + b == a;
    } else {
      var l := |b| - 1;
      assert (a + b)[..|a + b| - 1] == a + b[..l];
      MismatchesConcat(a, b[..l], start);
    }
  }

  /** A piece read at another position is all right or all wrong. */
  lemma {:induction false} MismatchesOfPiece(a: int, n: nat, b: int)
    ensures Mismatches(Piece(a, n), b) == if (a - b) % 4 == 0 then 0 else n
  {
    hide At;
    if n > 0 {
      MismatchesOfPiece(a, n - 1, b);
      assert Piece(a, n)[..n - 1] == Piece(a, n - 1);
      AtPeriod(a + n - 1, b + n - 1);
    }
  }

  /** Zero mismatches means: exactly the word. */
  lemma {:induction false} NoMismatch(s: string, start: int)
    ensures Mismatches(s, start) == 0 <==> s == Piece(start, |s|)
  {
    hide At;
    if s != "" {
      var l := |s| - 1;
      NoMismatch(s[..l], start);
      assert s == s[..l] + [s[l]];
      assert Piece(start, |s|)[..l] == Piece(start, l);
    }
  }

  lemma {:induction false} PieceConcat(start: int, m: nat, n: nat)
    ensures Piece(start, m) + Piece(start + m, n) == Piece(start, m + n)
  {
    hide At;
  }

  lemma {:induction false} PiecePeriod(a: int, b: int, n: nat)
    requires (a - b) % 4 == 0
    ensures Piece(a, n) == Piece(b, n)
  {
    hide At;
    forall i | 0 <= i < n ensures Piece(a, n)[i] == Piece(b, n)[i] {
      AtPeriod(a + i, b + i);
    }
  }

  /** Positions where s differs from the word, as a set. */
  ghost function Altered(s: string, start: int): set<nat> {
    set i: nat | i < |s| && s[i] != At(start + i)
  }

  lemma {:induction false} MismatchesCountAltered(s: string, start: int)
    ensures Mismatches(s, start) == |Altered(s, start)|
  {
    hide At;
    if s == "" {
      assert Altered(s, start) == {};
    } else {
      var l := |s| - 1;
      MismatchesCountAltered(s[..l], start);
      if s[l] == At(start + l) {
        assert Altered(s, start) == Altered(s[..l], start);
      } else {
        assert Altered(s, start) == Altered(s[..l], start) + {l};
      }
    }
  }
}
