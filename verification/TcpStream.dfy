/** The TCP generator and checker.  The socket delivers bytes in order, cut into reads of
    any size; a short write loses the rest of its packet, because the client does not
    send it again. */
module TcpStream {
  import opened Pattern

  /** A stretch of the word that reached the wire: where it starts in the word, and its length. */
  datatype Segment = Segment(start: nat, len: nat)

  function Total(sizes: seq<nat>): (n: nat) {
    if sizes == [] then 0 else Total(sizes[..|sizes| - 1]) + sizes[|sizes| - 1]
  }

  function Bytes(segs: seq<Segment>): (s: string) {
    if segs == [] then ""
    else
      var g := segs[|segs| - 1];
      Bytes(segs[..|segs| - 1]) + Piece(g.start, g.len)
  }

  // ----- client

  /** The packet loop body: fills the buffer and carries the letter index across packets. */
  method FillPacket(buffer: array<char>, msgIdx: nat) returns (idx: nat)
    requires msgIdx < 4
    modifies buffer
    ensures buffer[..] == Piece(msgIdx, buffer.Length)
    ensures forall i :: 0 <= i < buffer.Length ==> buffer[i] == "LEAK"[(msgIdx + i) % 4]
    ensures idx == (msgIdx + buffer.Length) % 4
  {
    hide At;
    idx := msgIdx;
    var j := 0;
    while j < buffer.Length
      invariant 0 <= j <= buffer.Length && idx == (msgIdx + j) % 4
      invariant forall i :: 0 <= i < j ==> buffer[i] == At(msgIdx + i)
    {
      LetterAt(idx, msgIdx + j);
      buffer[j] := LEAK[idx];
      NextIndex(idx, msgIdx + j);
      idx := (idx + 1) % 4;
      j := j + 1;
    }
    Spelt(buffer[..], msgIdx);
    assert forall i :: 0 <= i < buffer.Length ==> buffer[i] == buffer[..][i];
  }

  /** What the first k writes put on the wire: `accepted[j]` bytes of packet j. */
  function Segments(sizes: seq<nat>, accepted: seq<int>, k: nat): (segs: seq<Segment>)
    requires k <= |sizes| == |accepted|
    requires forall j :: 0 <= j < k ==> accepted[j] >= 0
    ensures |segs| == k
    ensures forall j :: 0 <= j < k ==> segs[j] == Segment(Total(sizes[..j]), accepted[j])
  {
    if k == 0 then []
    else Segments(sizes, accepted, k - 1) + [Segment(Total(sizes[..k - 1]), accepted[k - 1])]
  }

  /** The packet loop for any packet sizes; a negative write result ends it. */
  method SendPackets(sizes: seq<nat>, accepted: seq<int>) returns (wire: string, sent: nat)
    requires |sizes| == |accepted|
    requires forall k :: 0 <= k < |sizes| ==> accepted[k] <= sizes[k]
    ensures sent <= |sizes| && (sent < |sizes| ==> accepted[sent] < 0)
    ensures forall k :: 0 <= k < sent ==> accepted[k] >= 0
    ensures wire == Bytes(Segments(sizes, accepted, sent))
  {
    hide At, Piece, Total, Bytes, Segments;
    wire, sent := "", 0;
    var msgIdx := 0;
    NothingSent(sizes, accepted);
    while sent < |sizes|
      invariant 0 <= sent <= |sizes| && msgIdx == Total(sizes[..sent]) % 4
      invariant forall k :: 0 <= k < sent ==> accepted[k] >= 0
      invariant wire == Bytes(Segments(sizes, accepted, sent))
    {
      var buffer := new char[sizes[sent]];
      ghost var start := msgIdx;
      msgIdx := FillPacket(buffer, msgIdx);
      if accepted[sent] < 0 { return; }
      wire := wire + buffer[..][..accepted[sent]];
      SentSegment(sizes, accepted, sent, start, buffer[..]);
      sent := sent + 1;
    }
  }

  lemma {:induction false} NothingSent(sizes: seq<nat>, accepted: seq<int>)
    requires |sizes| == |accepted|
    ensures Total(sizes[..0]) == 0 && Bytes(Segments(sizes, accepted, 0)) == ""
  {
  }

  lemma {:induction false} SentSegment(sizes: seq<nat>, accepted: seq<int>, k: nat, start: nat, buffer: string)
    requires k < |sizes| == |accepted| && 0 <= accepted[k] <= sizes[k]
    requires forall j :: 0 <= j < k ==> accepted[j] >= 0
    requires start == Total(sizes[..k]) % 4 && buffer == Piece(start, sizes[k])
    ensures (start + sizes[k]) % 4 == Total(sizes[..k + 1]) % 4
    ensures Bytes(Segments(sizes, accepted, k + 1)) ==
            Bytes(Segments(sizes, accepted, k)) + buffer[..accepted[k]]
  {
    hide At;
    var total := Total(sizes[..k]);
    assert sizes[..k + 1][..k] == sizes[..k];
    assert Segments(sizes, accepted, k + 1)[..k] == Segments(sizes, accepted, k);
    PiecePeriod(start, total, sizes[k]);
    assert buffer[..accepted[k]] == Piece(total, accepted[k]);
  }

  // ----- server

  /** The byte loop over one read. */
  method CheckBytes(buf: string, errors: nat, msgIndex: nat, ghost start: nat) returns (e: nat, idx: nat)
    requires msgIndex == start % 4
    ensures e == errors + Mismatches(buf, start)
    ensures idx == (start + |buf|) % 4
  {
    hide At;
    e, idx := errors, msgIndex;
    var i := 0;
    while i < |buf|
      invariant 0 <= i <= |buf| && idx == (start + i) % 4
      invariant e == errors + Mismatches(buf[..i], start)
    {
      assert buf[..i + 1][..i] == buf[..i];
      LetterAt(idx, start + i);
      if buf[i] != LEAK[idx] { e := e + 1; }
      idx := (idx + 1) % 4;
      i := i + 1;
    }
    assert buf[..i] == buf;
  }

  /** The result of one read: some bytes (none at end of file), or an error. */
  datatype Read = Data(bytes: string) | Failed

  predicate HasBytes(r: Read) {
    r.Data? && r.bytes != ""
  }

  /** The bytes of the first k reads, none of them empty. */
  function Payload(results: seq<Read>, k: nat): (s: string)
    requires k <= |results| && forall j :: 0 <= j < k ==> HasBytes(results[j])
  {
    if k == 0 then "" else assert HasBytes(results[k - 1]); Payload(results, k - 1) + results[k - 1].bytes
  }

  /** Bytes read before read number k. */
  function Offset(results: seq<Read>, k: nat): (n: nat)
    requires k <= |results| && forall j :: 0 <= j < k ==> HasBytes(results[j])
  {
    if k == 0 then 0 else assert HasBytes(results[k - 1]); Offset(results, k - 1) + |results[k - 1].bytes|
  }

  /** The bytes (read, position in it) of the first k reads that differ from the word. */
  ghost function WrongBytes(results: seq<Read>, k: nat): set<(nat, nat)>
    requires k <= |results| && forall j :: 0 <= j < k ==> HasBytes(results[j])
  {
    set j: nat, i: nat |
      j < k && HasBytes(results[j]) && i < |results[j].bytes| && results[j].bytes[i] != At(Offset(results, j) + i)
      :: (j, i)
  }

  /** Byte i of read j is in the payload where the lengths before it say, and there is
      nothing else in it. */
  lemma {:induction false} PayloadByte(results: seq<Read>, k: nat, j: nat, i: nat)
    requires k <= |results| && forall l :: 0 <= l < k ==> HasBytes(results[l])
    ensures |Payload(results, k)| == Offset(results, k)
    ensures j < k && HasBytes(results[j]) && i < |results[j].bytes| ==>
              && Offset(results, j) + i < Offset(results, k)
              && Payload(results, k)[Offset(results, j) + i] == results[j].bytes[i]
  {
    if k > 0 {
      assert HasBytes(results[k - 1]);
      PayloadByte(results, k - 1, j, i);
    }
  }

  ghost function Pairs(j: nat, s: set<nat>): set<(nat, nat)> {
    set i | i in s :: (j, i)
  }

  lemma {:induction false} PairsCount(j: nat, s: set<nat>)
    ensures |Pairs(j, s)| == |s|
  {
    if s == {} {
      assert Pairs(j, s) == {};
    } else {
      var x :| x in s;
      PairsCount(j, s - {x});
      assert (j, x) !in Pairs(j, s - {x});
      assert Pairs(j, s) == Pairs(j, s - {x}) + {(j, x)};
    }
  }

  lemma {:induction false} WrongBytesOfRead(results: seq<Read>, k: nat)
    requires k < |results| && forall j :: 0 <= j <= k ==> HasBytes(results[j])
    ensures HasBytes(results[k])
    ensures |WrongBytes(results, k + 1)| ==
            |WrongBytes(results, k)| + |Altered(results[k].bytes, Offset(results, k))|
  {
    hide At, Offset;
    assert HasBytes(results[k]);
    var bad := Altered(results[k].bytes, Offset(results, k));
    var pairs := Pairs(k, bad);
    assert WrongBytes(results, k + 1) == WrongBytes(results, k) + pairs;
    assert WrongBytes(results, k) !! pairs;
    PairsCount(k, bad);
  }

  lemma {:induction false} WrongBytesCount(results: seq<Read>, k: nat)
    requires k <= |results| && forall j :: 0 <= j < k ==> HasBytes(results[j])
    ensures |WrongBytes(results, k)| == Mismatches(Payload(results, k), 0)
  {
    hide At, Mismatches, Altered, WrongBytes;
    if k == 0 {
      NoBytes();
      NoWrongBytes(results);
    } else {
      assert HasBytes(results[k - 1]);
      var before, buf := Payload(results, k - 1), results[k - 1].bytes;
      WrongBytesCount(results, k - 1);
      WrongBytesOfRead(results, k - 1);
      PayloadByte(results, k - 1, 0, 0);
      MismatchesConcat(before, buf, 0);
      MismatchesCountAltered(buf, |before|);
    }
  }

  lemma {:induction false} NoWrongBytes(results: seq<Read>)
    ensures WrongBytes(results, 0) == {}
  {
  }

  /** One connection: reads until an empty one, counting bytes that differ from the word.
      A failed read exits the process without printing the count. */
  method Serve(results: seq<Read>) returns (errors: nat, k: nat, exited: bool)
    ensures k <= |results| && forall j :: 0 <= j < k ==> HasBytes(results[j])
    ensures forall j :: 0 <= j < k ==> results[j].Data? && results[j].bytes != ""
    ensures k < |results| ==> results[k] == Failed || results[k] == Data("")
    ensures exited <==> k < |results| && results[k] == Failed
    ensures errors == Mismatches(Payload(results, k), 0) == |WrongBytes(results, k)|
  {
    hide At, Mismatches, WrongBytes;
    errors, k := 0, 0;
    NoBytes();
    var msgIndex := 0;
    while k < |results|
      invariant 0 <= k <= |results|
      invariant forall j :: 0 <= j < k ==> HasBytes(results[j])
      invariant msgIndex == |Payload(results, k)| % 4
      invariant errors == Mismatches(Payload(results, k), 0)
    {
      WrongBytesCount(results, k);
      if results[k].Failed? { return errors, k, true; }
      var buf := results[k].bytes;
      if |buf| == 0 { return errors, k, false; }
      ghost var before := Payload(results, k);
      errors, msgIndex := CheckBytes(buf, errors, msgIndex, |before|);
      MismatchesConcat(before, buf, 0);
      k := k + 1;
    }
    WrongBytesCount(results, k);
    exited := false;
  }

  lemma {:induction false} NoBytes()
    ensures Mismatches("", 0) == 0
  {
  }

  // ----- what the count means

  /** Bytes received before segment k. */
  function Received(segs: seq<Segment>, k: nat): (n: nat)
    requires k <= |segs|
  {
    if k == 0 then 0 else Received(segs, k - 1) + segs[k - 1].len
  }

  /** Total length of the segments whose cumulative displacement is not a multiple of 4. */
  function Displaced(segs: seq<Segment>, k: nat): (n: nat)
    requires k <= |segs|
  {
    if k == 0 then 0
    else
      var g := segs[k - 1];
      Displaced(segs, k - 1) + if (g.start - Received(segs, k - 1)) % 4 == 0 then 0 else g.len
  }

  lemma {:induction false} BytesPrefix(segs: seq<Segment>, k: nat)
    requires k <= |segs|
    ensures |Bytes(segs[..k])| == Received(segs, k)
    ensures Mismatches(Bytes(segs[..k]), 0) == Displaced(segs, k)
  {
    hide At, Piece, Mismatches;
    if k == 0 {
      NoBytes();
    } else {
      BytesPrefix(segs, k - 1);
      var g := segs[k - 1];
      assert segs[..k][..k - 1] == segs[..k - 1];
      MismatchesConcat(Bytes(segs[..k - 1]), Piece(g.start, g.len), 0);
      MismatchesOfPiece(g.start, g.len, Received(segs, k - 1));
    }
  }

  /** Byte i of segment k is on the wire after the bytes of the segments before it. */
  lemma {:induction false} WireByte(segs: seq<Segment>, k: nat, i: nat)
    requires k < |segs| && i < segs[k].len
    ensures Received(segs, k) + i < |Bytes(segs)| == Received(segs, |segs|)
    ensures Bytes(segs)[Received(segs, k) + i] == "LEAK"[(segs[k].start + i) % 4]
    decreases |segs|
  {
    hide At, Piece, Mismatches;
    var l := |segs| - 1;
    assert segs[..|segs|] == segs;
    BytesPrefix(segs, |segs|);
    BytesPrefix(segs, l);
    if k < l {
      ReceivedPrefix(segs, l, k);
      WireByte(segs[..l], k, i);
      ReceivedPrefix(segs, l, l);
    } else {
      Spelt(Piece(segs[k].start, segs[k].len), segs[k].start);
    }
  }

  lemma {:induction false} ReceivedPrefix(segs: seq<Segment>, l: nat, k: nat)
    requires k <= l <= |segs|
    ensures Received(segs[..l], k) == Received(segs, k)
  {
    if k > 0 { ReceivedPrefix(segs, l, k - 1); }
  }

  /** Stream checker theorem: the mismatch count of a stream of pattern segments is the
      length of the displaced ones; lost, repeated or reordered stretches are all displacements. */
  lemma {:induction false} ErrorsAreDisplaced(segs: seq<Segment>)
    ensures Mismatches(Bytes(segs), 0) == Displaced(segs, |segs|)
  {
    assert segs[..|segs|] == segs;
    BytesPrefix(segs, |segs|);
  }

  // ----- client to server

  /** Bytes that the writes before number k did not accept. */
  function Lost(sizes: seq<nat>, accepted: seq<int>, k: nat): (n: int)
    requires k <= |sizes| == |accepted|
  {
    if k == 0 then 0 else Lost(sizes, accepted, k - 1) + sizes[k - 1] - accepted[k - 1]
  }

  /** Accepted bytes of the first k writes before which the loss was not a multiple of 4. */
  function Misaligned(sizes: seq<nat>, accepted: seq<int>, k: nat): (n: int)
    requires k <= |sizes| == |accepted|
  {
    if k == 0 then 0
    else
      Misaligned(sizes, accepted, k - 1)
      + if Lost(sizes, accepted, k - 1) % 4 == 0 then 0 else accepted[k - 1]
  }

  lemma {:induction false} DisplacedIsMisaligned(sizes: seq<nat>, accepted: seq<int>, n: nat, k: nat)
    requires k <= n <= |sizes| == |accepted| && forall j :: 0 <= j < n ==> accepted[j] >= 0
    ensures var segs := Segments(sizes, accepted, n);
            && Total(sizes[..k]) - Received(segs, k) == Lost(sizes, accepted, k)
            && Displaced(segs, k) == Misaligned(sizes, accepted, k)
  {
    hide Segments;
    var segs := Segments(sizes, accepted, n);
    if k > 0 {
      DisplacedIsMisaligned(sizes, accepted, n, k - 1);
      assert sizes[..k][..k - 1] == sizes[..k - 1];
      assert segs[k - 1] == Segment(Total(sizes[..k - 1]), accepted[k - 1]);
    }
  }

  /** However the bytes of the first n writes are cut into reads, the mismatches are the
      accepted bytes of exactly those writes before which the cumulative loss was not a
      multiple of 4. */
  lemma {:induction false} MismatchesOfTransfer(sizes: seq<nat>, accepted: seq<int>, n: nat, results: seq<Read>, k: nat)
    requires n <= |sizes| == |accepted| && forall j :: 0 <= j < n ==> accepted[j] >= 0
    requires k <= |results| && forall j :: 0 <= j < k ==> HasBytes(results[j])
    requires Payload(results, k) == Bytes(Segments(sizes, accepted, n))
    ensures Mismatches(Payload(results, k), 0) == Misaligned(sizes, accepted, n)
  {
    hide At, Piece, Mismatches, Bytes, Segments, Displaced, Misaligned, Payload;
    ErrorsAreDisplaced(Segments(sizes, accepted, n));
    DisplacedIsMisaligned(sizes, accepted, n, n);
  }

  /** What the server prints for a connection that delivers the first n writes. */
  method ErrorsOfTransfer(sizes: seq<nat>, accepted: seq<int>, n: nat, results: seq<Read>) returns (errors: nat)
    requires n <= |sizes| == |accepted| && forall j :: 0 <= j < n ==> accepted[j] >= 0
    requires results != [] && results[|results| - 1].Data? && results[|results| - 1].bytes == ""
    requires forall j :: 0 <= j < |results| - 1 ==> HasBytes(results[j])
    requires Payload(results, |results| - 1) == Bytes(Segments(sizes, accepted, n))
    ensures errors == Misaligned(sizes, accepted, n)
  {
    hide At, Piece, Mismatches, Bytes, Segments, Misaligned;
    var k, exited;
    errors, k, exited := Serve(results);
    assert k == |results| - 1;
    MismatchesOfTransfer(sizes, accepted, n, results, k);
  }

  lemma {:induction false} NothingLost(sizes: seq<nat>, k: nat)
    requires k <= |sizes|
    ensures Lost(sizes, sizes, k) == 0 && Misaligned(sizes, sizes, k) == 0
  {
    if k > 0 { NothingLost(sizes, k - 1); }
  }

  /** When every write is complete, the client's output is a prefix of the word, for any
      packet sizes, and so adds no error. */
  lemma {:induction false} FullOutputAccepted(sizes: seq<nat>)
    ensures Bytes(Segments(sizes, sizes, |sizes|)) == Piece(0, Total(sizes))
    ensures Misaligned(sizes, sizes, |sizes|) == 0
  {
    hide At, Piece, Mismatches, Bytes, Segments;
    var segs := Segments(sizes, sizes, |sizes|);
    NothingLost(sizes, |sizes|);
    DisplacedIsMisaligned(sizes, sizes, |sizes|, |sizes|);
    ErrorsAreDisplaced(segs);
    BytesPrefix(segs, |segs|);
    assert segs[..|segs|] == segs && sizes[..|sizes|] == sizes;
    NoMismatch(Bytes(segs), 0);
  }

  /** One short write: everything after it is an error, exactly when the loss is not a multiple of 4. */
  lemma {:induction false} OneShortWrite(sent: nat, lost: nat, rest: nat)
    ensures var segs := [Segment(0, sent), Segment(sent + lost, rest)];
            Mismatches(Bytes(segs), 0) == if lost % 4 == 0 then 0 else rest
  {
    hide At, Piece, Mismatches, Bytes;
    var segs := [Segment(0, sent), Segment(sent + lost, rest)];
    BytesPrefix(segs, 2);
    assert segs[..2] == segs;
    assert Received(segs, 1) == sent && Displaced(segs, 1) == 0;
  }
}
