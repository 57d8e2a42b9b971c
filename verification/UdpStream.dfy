/** The UDP generator and checker: the server reads at most 1024 bytes of each datagram
    and realigns on the first byte, so it needs no order between datagrams. */
module UdpStream {
  import opened OrderedDict
  import opened Pattern

  const SEND_SIZE := 64000
  const BUFSIZE := 1024

  // ----- client

  /** The datagram loop body; it carries the letter index from one datagram to the next. */
  method FillDatagram(buffer: array<char>, msgIdx: nat) returns (idx: nat)
    requires buffer.Length == SEND_SIZE && msgIdx < 4
    modifies buffer
    ensures idx == (msgIdx + SEND_SIZE) % 4 && buffer[..] == Piece(msgIdx, SEND_SIZE)
    ensures forall i :: 0 <= i < 64000 ==> buffer[i] == "LEAK"[(msgIdx + i) % 4]
  {
    hide At;
    idx := msgIdx;
    var k := 0;
    while k < SEND_SIZE
      invariant 0 <= k <= SEND_SIZE && idx == (msgIdx + k) % 4
      invariant forall i :: 0 <= i < k ==> buffer[i] == At(msgIdx + i)
    {
      LetterAt(idx, msgIdx + k);
      assert idx % 4 == idx;
      buffer[k] := LEAK[idx % 4];
      NextIndex(idx, msgIdx + k);
      idx := (idx + 1) % 4;
      k := k + 1;
    }
    Spelt(buffer[..], msgIdx);
    assert forall i :: 0 <= i < SEND_SIZE ==> buffer[i] == buffer[..][i];
  }

  /** The packet loop; a negative sendto result ends it.  64000 is a multiple of 4, so
      every datagram starts with 'L'. */
  method SendDatagrams(packets: nat, results: seq<int>) returns (sent: seq<string>)
    requires |results| == packets
    ensures |sent| <= packets && (|sent| < packets ==> results[|sent|] < 0)
    ensures forall k :: 0 <= k < |sent| ==> results[k] >= 0 && sent[k] == Piece(0, SEND_SIZE)
    ensures forall k :: 0 <= k < |sent| ==> |sent[k]| == 64000
    ensures forall k, i :: 0 <= k < |sent| && 0 <= i < 64000 ==> sent[k][i] == "LEAK"[i % 4]
  {
    hide At, Piece;
    Spelt(Piece(0, SEND_SIZE), 0);
    sent := [];
    var buffer := new char[SEND_SIZE];
    var msgIdx := 0;
    var i := 1;
    while i <= packets
      invariant 1 <= i <= packets + 1 && |sent| == i - 1 && msgIdx == 0
      invariant forall k :: 0 <= k < |sent| ==> results[k] >= 0 && sent[k] == Piece(0, SEND_SIZE)
    {
      msgIdx := FillDatagram(buffer, msgIdx);
      if results[i - 1] < 0 { return; }
      sent := sent + [buffer[..]];
      i := i + 1;
    }
  }

  // ----- server on values

  /** What recvfrom hands over. */
  function Truncated(d: string): (s: string)
    ensures s <= d && |s| == if |d| <= 1024 then |d| else 1024
  {
    if |d| <= BUFSIZE then d else d[..BUFSIZE]
  }

  /** The letter index after looking at byte c: the position of c, or the old index. */
  function Realigned(c: char, old_: nat): (k: nat)
    requires old_ < 4
    ensures k < 4
    ensures c in "LEAK" ==> "LEAK"[k] == c
    ensures c !in "LEAK" ==> k == old_
  {
    if c == LEAK[0] then 0 else if c == LEAK[1] then 1 else if c == LEAK[2] then 2
    else if c == LEAK[3] then 3 else old_
  }

  datatype Checker = Checker(msgIndex: nat, errors: nat)

  /** One datagram; `first` is buf[0], which is stale when the datagram is empty. */
  function Received(c: Checker, d: string, first: char): (c': Checker)
    requires c.msgIndex < 4 && (d != "" ==> first == d[0])
    ensures c'.msgIndex < 4
  {
    var s := Truncated(d);
    var k := Realigned(first, c.msgIndex);
    Checker((k + |s|) % 4, c.errors + Mismatches(s, k))
  }

  // ----- server

  class UdpServer {
    const buf: array<char>
    var msgIndex: nat
    var errors: nat

    ghost predicate Valid()
      reads this
    {
      buf.Length == BUFSIZE && msgIndex < 4
    }

    /** The buffer starts with whatever malloc returned. */
    constructor (initial: array<char>)
      requires initial.Length == BUFSIZE
      ensures Valid() && buf == initial && msgIndex == 0 && errors == 0
    {
      buf, msgIndex, errors := initial, 0, 0;
    }

    /** Lines 88-93: the first letter that equals buf[0] sets the index. */
    method Realign()
      requires Valid()
      modifies `msgIndex
      ensures Valid() && msgIndex == Realigned(buf[0], old(msgIndex))
    {
      var k := 0;
      while k < 4
        invariant 0 <= k <= 4 && msgIndex == old(msgIndex)
        invariant forall j :: 0 <= j < k ==> buf[0] != LEAK[j]
      {
        if buf[0] == LEAK[k] { msgIndex := k; break; }
        k := k + 1;
      }
    }

    /** Lines 95-102: the byte loop. */
    method CheckBytes(n: nat)
      requires Valid() && n <= BUFSIZE
      modifies `msgIndex, `errors
      ensures Valid() && msgIndex == (old(msgIndex) + n) % 4
      ensures errors == old(errors) + Mismatches(buf[..n], old(msgIndex))
    {
      hide At;
      var i := 0;
      while i < n
        invariant 0 <= i <= n && msgIndex == (old(msgIndex) + i) % 4
        invariant errors == old(errors) + Mismatches(buf[..i], old(msgIndex))
      {
        assert buf[..i + 1][..i] == buf[..i];
        LetterAt(msgIndex, old(msgIndex) + i);
        if buf[i] != LEAK[msgIndex] { errors := errors + 1; }
        msgIndex := (msgIndex + 1) % 4;
        i := i + 1;
      }
    }

    /** One trip round the receive loop. */
    method Receive(d: string)
      requires Valid()
      modifies this, buf
      ensures Valid()
      ensures var first := if d == "" then old(buf[0]) else d[0];
              Checker(msgIndex, errors) == Received(old(Checker(msgIndex, errors)), d, first)
      ensures forall i :: 0 <= i < BUFSIZE ==> buf[i] == '\0'
    {
      hide Mismatches, Realigned;
      var s := Truncated(d);
      forall i | 0 <= i < |s| { buf[i] := s[i]; }
      assert buf[..|s|] == s;
      Realign();
      CheckBytes(|s|);
      forall j | 0 <= j < buf.Length { buf[j] := '\0'; }
    }

    /** The receive loop over what recvfrom returns; an error (None) exits the process. */
    method Loop(results: seq<Option<string>>) returns (k: nat)
      requires Valid()
      modifies this, buf
      ensures Valid() && k <= |results| && (k < |results| ==> results[k].None?)
      ensures forall j :: 0 <= j < k ==> results[j].Some?
      ensures Checker(msgIndex, errors) == ReceivedAll(old(Checker(msgIndex, errors)), old(buf[0]), results, k)
      ensures msgIndex == LetterIndex(old(msgIndex), old(buf[0]), results, k)
      ensures errors == old(errors) + AlteredIn(old(msgIndex), old(buf[0]), results, k)
    {
      hide Received, LetterIndex, AlteredIn;
      k := 0;
      ghost var c := Checker(msgIndex, errors);
      while k < |results|
        invariant 0 <= k <= |results| && Valid()
        invariant forall j :: 0 <= j < k ==> results[j].Some?
        invariant Checker(msgIndex, errors) == ReceivedAll(c, old(buf[0]), results, k)
        invariant buf[0] == if k == 0 then old(buf[0]) else '\0'
      {
        ListOfDatagrams(c, old(buf[0]), results, k);
        if results[k].None? { return; }
        Receive(results[k].value);
        k := k + 1;
      }
      ListOfDatagrams(c, old(buf[0]), results, k);
    }
  }

  // ----- what the count means

  /** The server over the first k datagrams.  buf[0] holds `stale` before the first one and
      is wiped after each. */
  function ReceivedAll(c: Checker, stale: char, ds: seq<Option<string>>, k: nat): (c': Checker)
    requires c.msgIndex < 4 && k <= |ds| && forall j :: 0 <= j < k ==> ds[j].Some?
    ensures c'.msgIndex < 4
  {
    if k == 0 then c
    else
      var d := ds[k - 1].value;
      var first := if d != "" then d[0] else if k == 1 then stale else '\0';
      Received(ReceivedAll(c, stale, ds, k - 1), d, first)
  }

  /** buf[0] when datagram j has been received. */
  function FirstByte(stale: char, ds: seq<Option<string>>, j: nat): (c: char)
    requires j < |ds| && ds[j].Some?
  {
    if ds[j].value != "" then ds[j].value[0] else if j == 0 then stale else '\0'
  }

  /** Bytes received from datagrams a to k - 1. */
  function Taken(ds: seq<Option<string>>, a: nat, k: nat): (n: nat)
    requires k <= |ds| && forall j :: 0 <= j < k ==> ds[j].Some?
  {
    if k <= a then 0
    else Taken(ds, a, k - 1) + if |ds[k - 1].value| <= 1024 then |ds[k - 1].value| else 1024
  }

  /** The latest of the first k datagrams whose first byte is a letter of the word, or -1. */
  function Anchor(stale: char, ds: seq<Option<string>>, k: nat): (a: int)
    requires k <= |ds| && forall j :: 0 <= j < k ==> ds[j].Some?
    ensures -1 <= a < k && (a >= 0 ==> FirstByte(stale, ds, a) in "LEAK")
    ensures forall j :: a < j < k ==> FirstByte(stale, ds, j) !in "LEAK"
  {
    if k == 0 then -1 else if FirstByte(stale, ds, k - 1) in "LEAK" then k - 1 else Anchor(stale, ds, k - 1)
  }

  function Position(c: char): (p: nat)
    requires c in "LEAK"
    ensures p < 4 && "LEAK"[p] == c
  {
    if c == 'L' then 0 else if c == 'E' then 1 else if c == 'A' then 2 else 3
  }

  /** The letter index after k datagrams: all bytes received since the latest datagram that
      began with a letter, counted from that letter, or from `start` if there is none. */
  function LetterIndex(start: nat, stale: char, ds: seq<Option<string>>, k: nat): (i: nat)
    requires k <= |ds| && forall j :: 0 <= j < k ==> ds[j].Some?
  {
    var a := Anchor(stale, ds, k);
    if a < 0 then (start + Taken(ds, 0, k)) % 4
    else (Position(FirstByte(stale, ds, a)) + Taken(ds, a, k)) % 4
  }

  /** The index from which datagram j is compared. */
  function Phase(start: nat, stale: char, ds: seq<Option<string>>, j: nat): (i: nat)
    requires j < |ds| && forall l :: 0 <= l <= j ==> ds[l].Some?
  {
    if FirstByte(stale, ds, j) in "LEAK" then Position(FirstByte(stale, ds, j)) else LetterIndex(start, stale, ds, j)
  }

  /** Received bytes of the first k datagrams that differ from the word at those indices. */
  ghost function AlteredIn(start: nat, stale: char, ds: seq<Option<string>>, k: nat): (n: nat)
    requires k <= |ds| && forall j :: 0 <= j < k ==> ds[j].Some?
  {
    if k == 0 then 0
    else
      AlteredIn(start, stale, ds, k - 1) +
      |Altered(Truncated(ds[k - 1].value), Phase(start, stale, ds, k - 1))|
  }

  lemma {:induction false} ModAdd(a: int, b: int)
    ensures (a % 4 + b) % 4 == (a + b) % 4
  {
    assert a + b == (a % 4 + b) + 4 * (a / 4);
  }

  lemma {:induction false} PositionUnique(c: char, k: nat)
    requires k < 4 && "LEAK"[k] == c
    ensures c in "LEAK" && Position(c) == k
  {
    assert c == 'L' || c == 'E' || c == 'A' || c == 'K';
  }

  lemma {:induction false} RealignedIsPhase(start: nat, stale: char, ds: seq<Option<string>>, k: nat)
    requires start < 4 && k < |ds| && forall j :: 0 <= j <= k ==> ds[j].Some?
    ensures LetterIndex(start, stale, ds, k) < 4
    ensures Realigned(FirstByte(stale, ds, k), LetterIndex(start, stale, ds, k)) == Phase(start, stale, ds, k)
  {
    hide Realigned, Position, FirstByte, Taken, Anchor;
    var c, i := FirstByte(stale, ds, k), LetterIndex(start, stale, ds, k);
    if c in "LEAK" { PositionUnique(c, Realigned(c, i)); }
  }

  lemma {:induction false} IndexNext(start: nat, stale: char, ds: seq<Option<string>>, k: nat)
    requires start < 4 && k < |ds| && forall j :: 0 <= j <= k ==> ds[j].Some?
    ensures LetterIndex(start, stale, ds, k + 1) ==
            (Phase(start, stale, ds, k) + |Truncated(ds[k].value)|) % 4
  {
    hide Position, FirstByte, Truncated;
    var n := |Truncated(ds[k].value)|;
    if FirstByte(stale, ds, k) in "LEAK" {
      assert Anchor(stale, ds, k + 1) == k && Taken(ds, k, k) == 0 && Taken(ds, k, k + 1) == n;
    } else {
      assert Anchor(stale, ds, k + 1) == Anchor(stale, ds, k);
      var a := Anchor(stale, ds, k);
      if a < 0 { ModAdd(start + Taken(ds, 0, k), n); }
      else { ModAdd(Position(FirstByte(stale, ds, a)) + Taken(ds, a, k), n); }
    }
  }

  /** The server over any list of datagrams: the index it carries, and the errors it adds. */
  lemma {:induction false} ListOfDatagrams(c: Checker, stale: char, ds: seq<Option<string>>, k: nat)
    requires c.msgIndex < 4 && k <= |ds| && forall j :: 0 <= j < k ==> ds[j].Some?
    ensures ReceivedAll(c, stale, ds, k).msgIndex == LetterIndex(c.msgIndex, stale, ds, k)
    ensures ReceivedAll(c, stale, ds, k).errors == c.errors + AlteredIn(c.msgIndex, stale, ds, k)
  {
    hide At, Realigned, Mismatches, Altered, LetterIndex, Phase, Truncated;
    if k == 0 {
      NoDatagrams(c.msgIndex, stale, ds);
    } else {
      ListOfDatagrams(c, stale, ds, k - 1);
      RealignedIsPhase(c.msgIndex, stale, ds, k - 1);
      IndexNext(c.msgIndex, stale, ds, k - 1);
      MismatchesCountAltered(Truncated(ds[k - 1].value), Phase(c.msgIndex, stale, ds, k - 1));
    }
  }

  lemma {:induction false} NoDatagrams(start: nat, stale: char, ds: seq<Option<string>>)
    requires start < 4
    ensures LetterIndex(start, stale, ds, 0) == start
  {
  }

  ghost predicate IsPiece(d: string) {
    exists start: nat :: d == Piece(start, |d|)
  }

  lemma {:induction false} RealignedAt(i: int, old_: nat)
    requires old_ < 4
    ensures Realigned(At(i), old_) == i % 4
  {
  }

  lemma {:induction false} PieceAddsNothing(c: Checker, d: string, first: char)
    requires c.msgIndex < 4 && IsPiece(d) && (d != "" ==> first == d[0])
    ensures Received(c, d, first).errors == c.errors
  {
    hide At, Realigned, Mismatches, Piece;
    var start: nat :| d == Piece(start, |d|);
    var s := Truncated(d);
    assert s == Piece(start, |s|);
    if d != "" {
      assert first == At(start);
      RealignedAt(start, c.msgIndex);
      PhaseFits(start);
      MismatchesOfPiece(start, |s|, start % 4);
    } else {
      MismatchesOfPiece(start, 0, Realigned(first, c.msgIndex));
    }
  }

  lemma {:induction false} PhaseFits(i: int)
    ensures (i - i % 4) % 4 == 0 && (i % 4 - i) % 4 == 0
  {
    assert i - i % 4 == 4 * (i / 4) && i % 4 - i == 4 * (-(i / 4));
  }

  /** Any list of pattern pieces adds no error: datagrams may be lost, reordered, duplicated,
      truncated or empty. */
  lemma {:induction false} PiecesAddNothing(c: Checker, stale: char, ds: seq<Option<string>>, k: nat)
    requires c.msgIndex < 4 && k <= |ds|
    requires forall j :: 0 <= j < k ==> ds[j].Some? && IsPiece(ds[j].value)
    ensures ReceivedAll(c, stale, ds, k).errors == c.errors
  {
    hide Received, IsPiece;
    if k > 0 {
      PiecesAddNothing(c, stale, ds, k - 1);
      var d := ds[k - 1].value;
      var first := if d != "" then d[0] else if k == 1 then stale else '\0';
      PieceAddsNothing(ReceivedAll(c, stale, ds, k - 1), d, first);
    }
  }

  /** Whatever is altered, the errors added are the received bytes that differ from the word
      read from the index the first byte selects. */
  lemma {:induction false} ErrorsFromIndex(c: Checker, d: string)
    requires c.msgIndex < 4 && d != ""
    ensures Received(c, d, d[0]).errors ==
            c.errors + |Altered(Truncated(d), Realigned(d[0], c.msgIndex))|
  {
    hide At, Realigned, Mismatches, Altered;
    MismatchesCountAltered(Truncated(d), Realigned(d[0], c.msgIndex));
  }

  /** So every altered byte counts once, the first one and any others, when that index fits
      where the datagram starts in the word. */
  lemma {:induction false} FittingIndexCounts(c: Checker, d: string, start: nat)
    requires c.msgIndex < 4 && d != "" && (Realigned(d[0], c.msgIndex) - start) % 4 == 0
    ensures Received(c, d, d[0]).errors == c.errors + |Altered(Truncated(d), start)|
  {
    hide At, Realigned, Mismatches, Altered;
    var s, k := Truncated(d), Realigned(d[0], c.msgIndex);
    MismatchesPeriod(s, k, start);
    MismatchesCountAltered(s, start);
  }

  /** Altering bytes other than the first adds exactly one error for each one received. */
  lemma {:induction false} AlteredBytesCounted(c: Checker, d: string, start: nat)
    requires c.msgIndex < 4 && d != "" && d[0] == At(start)
    ensures Received(c, d, d[0]).errors == c.errors + |Altered(Truncated(d), start)|
  {
    hide At, Realigned, Received, Altered;
    RealignedAt(start, c.msgIndex);
    PhaseFits(start);
    FittingIndexCounts(c, d, start);
  }

  /** Altering the first byte is different.  Another pattern letter shifts the whole rest;
      any other byte leaves the index of the previous datagram in force. */
  lemma {:induction false} FirstByteAltered(c: Checker, start: nat, n: nat, x: char)
    requires c.msgIndex < 4 && n > 0 && x != At(start)
    ensures var d := [x] + Piece(start + 1, n - 1);
            var rest := |Truncated(d)| - 1;
            Received(c, d, x).errors == c.errors +
              if x in LEAK then rest else 1 + if (c.msgIndex - start) % 4 == 0 then 0 else rest
  {
    hide At, Mismatches, Realigned, Piece;
    var d := [x] + Piece(start + 1, n - 1);
    var rest := |Truncated(d)| - 1;
    var k := Realigned(x, c.msgIndex);
    assert Truncated(d) == [x] + Piece(start + 1, rest);
    MismatchesConcat([x], Piece(start + 1, rest), k);
    MismatchesOfPiece(start + 1, rest, k + 1);
    OneByte(x, k);
    AtPeriod(k, start);
    LettersOnly(x, k);
  }

  /** Exactly one byte of such a datagram is altered. */
  lemma {:induction false} OnlyFirstAltered(start: nat, n: nat, x: char)
    requires n > 0 && x != At(start)
    ensures Altered(Truncated([x] + Piece(start + 1, n - 1)), start) == {0}
  {
    hide At, Piece;
    var s := Truncated([x] + Piece(start + 1, n - 1));
    assert forall i :: 1 <= i < |s| ==> s[i] == At(start + 1 + (i - 1));
  }

  /** So "one error per altered byte" holds for a datagram altered only in its first byte
      exactly when the new byte is a pattern letter and two bytes are received, or it is no
      pattern letter and only it is received or the old index happened to fit. */
  lemma {:induction false} FirstByteCountedOnce(c: Checker, start: nat, n: nat, x: char)
    requires c.msgIndex < 4 && n > 0 && x != At(start)
    ensures var d := [x] + Piece(start + 1, n - 1);
            var s := Truncated(d);
            Received(c, d, x).errors == c.errors + |Altered(s, start)| <==>
              if x in LEAK then |s| == 2 else |s| == 1 || (c.msgIndex - start) % 4 == 0
  {
    hide At, Piece, Received, Altered;
    FirstByteAltered(c, start, n, x);
    OnlyFirstAltered(start, n, x);
  }

  /** A datagram of the client whose first byte arrives as 'E': one byte altered, 1023 errors. */
  lemma {:induction false} FirstByteCountedWrong()
    ensures var d := ['E'] + Piece(1, SEND_SIZE - 1);
            && |Altered(Truncated(d), 0)| == 1
            && Received(Checker(0, 0), d, 'E').errors == 1023
  {
    hide At, Piece, Received, Altered;
    LettersOnly('E', 0);
    assert LEAK[1] == 'E';
    FirstByteAltered(Checker(0, 0), 0, SEND_SIZE, 'E');
    OnlyFirstAltered(0, SEND_SIZE, 'E');
  }

  lemma {:induction false} OneByte(x: char, k: int)
    ensures Mismatches([x], k) == if x == At(k) then 0 else 1
  {
    assert [x][..0] == "";
  }

  lemma {:induction false} LettersOnly(x: char, k: nat)
    requires k < 4
    ensures At(k) == LEAK[k] && (x == At(k) ==> x in LEAK)
  {
  }
}
