/** The TLS echo program: a client that sends 100 packets of the word and reads the echo
    as it comes, and a server that reads and writes back.  The two TLS directions are
    FIFO byte queues; every interleaving and every read size is a run. */
module Echo {
  import opened Pattern
  import Bits = DumpScanner

  const MAX_BUF_SIZE := 65536
  const PACKETS := 100
  const MAX_PACKET := 32752  // largest multiple of 16 below MAX_BUF_SIZE / 2

  // ----- the two loops over buffers

  /** Lines 293-295. */
  method FillTx(txbuf: array<char>)
    requires txbuf.Length == MAX_BUF_SIZE
    modifies txbuf
    ensures txbuf[..] == Piece(0, MAX_BUF_SIZE)
    ensures forall i :: 0 <= i < 65536 ==> txbuf[i] == "LEAK"[i % 4]
  {
    var i := 0;
    while i < MAX_BUF_SIZE
      invariant 0 <= i <= MAX_BUF_SIZE
      invariant forall j :: 0 <= j < i ==> txbuf[j] == At(j)
    {
      txbuf[i] := LEAK[i % 4];
      i := i + 1;
    }
    Spelt(txbuf[..], 0);
    assert forall j :: 0 <= j < MAX_BUF_SIZE ==> txbuf[j] == txbuf[..][j];
  }

  /** Lines 320-324 and 338-342: the loop over a read of rxlen bytes.  It compares the
      running letter with buf; flagged counts the ERROR lines. */
  method CheckBuffer(buf: array<char>, rxlen: nat, msgIdx: nat, ghost before: nat) returns (flagged: nat, idx: nat)
    requires rxlen <= buf.Length && msgIdx == before % 4
    ensures flagged == Mismatches(buf[..rxlen], before)
    ensures idx == (before + rxlen) % 4
  {
    hide At;
    flagged, idx := 0, msgIdx;
    var j := 0;
    while j < rxlen
      invariant 0 <= j <= rxlen && idx == (before + j) % 4
      invariant flagged == Mismatches(buf[..j], before)
    {
      assert buf[..j + 1][..j] == buf[..j];
      LetterAt(idx, before + j);
      if LEAK[idx] != buf[j] { flagged := flagged + 1; }
      idx := (idx + 1) % 4;
      j := j + 1;
    }
  }

  /** The check as written is given txbuf: it flags a whole read or nothing, depending
      only on how many bytes arrived before, whatever the bytes of the read are. */
  method CheckAsWritten(txbuf: array<char>, rxbuf: array<char>, rxlen: nat, msgIdx: nat, ghost before: nat)
    returns (flagged: nat, idx: nat)
    requires txbuf.Length == rxbuf.Length == MAX_BUF_SIZE && txbuf[..] == Piece(0, MAX_BUF_SIZE)
    requires rxlen <= MAX_BUF_SIZE && msgIdx == before % 4
    ensures flagged == if before % 4 == 0 then 0 else rxlen
    ensures idx == (before + rxlen) % 4
  {
    hide At, Mismatches;
    flagged, idx := CheckBuffer(txbuf, rxlen, msgIdx, before);
    assert txbuf[..rxlen] == Piece(0, rxlen) by { assert txbuf[..rxlen] == txbuf[..][..rxlen]; }
    MismatchesOfPiece(0, rxlen, before);
  }

  // ----- client and server as steps

  datatype Phase =
    | Sending(i: nat)   // at the top of the packet loop
    | Reading(i: nat)   // packet i written, its read pending
    | Draining          // in the loop after the packets
    | Done

  datatype State = State(phase: Phase, totalSent: nat, totalReceived: nat, msgIdx: nat,
                         sent: string, received: string,      // bytes written and read so far
                         fwd: string, held: string, ret: string, // to the server, in it, from it
                         uncounted: nat,  // bytes a failed write added to totalSent
                         lost: nat,       // bytes a failed server write dropped
                         up: bool,        // the server is in its echo loop
                         readError: bool, flagged: nat)

  const INIT := State(Sending(0), 0, 0, 0, "", "", "", "", "", 0, 0, true, false, 0)

  datatype Action =
    | Write(len: nat) | WriteFails(len: nat) | EndPackets
    | Read(n: nat) | ReadFails | EndDrain
    | ServerRead(n: nat) | ServerReadFails | ServerWrite | ServerWriteFails

  /** txlen is a multiple of 16 below half the buffer. */
  predicate PacketSize(len: nat) {
    len % 16 == 0 && len <= MAX_PACKET
  }

  lemma {:induction false} SixteenthsOnly(x: int)
    requires x % 16 == 0
    ensures (x % 32768) % 16 == 0 && 0 <= x % 32768 <= 32752
  {
    assert x == 32768 * (x / 32768) + x % 32768;
    assert x % 32768 == 16 * (x / 16 - 2048 * (x / 32768));
  }

  lemma {:induction false} Masked(r: int)
    ensures Bits.BitAnd(r, Bits.Complement(0xf)) == r - r % 16 && (r - r % 16) % 16 == 0
  {
    hide Bits.BitAnd;
    Bits.MaskIsMod(r, 4);
    assert r - r % 16 == 16 * (r / 16);
  }

  /** Line 298: these are exactly the lengths the client can draw. */
  lemma {:induction false} PacketSizes(len: nat)
    ensures PacketSize(len) <==> exists r: nat :: len == Bits.BitAnd(r, Bits.Complement(0xf)) % (65536 / 2)
  {
    hide Bits.BitAnd, Bits.Complement;
    forall r: nat | len == Bits.BitAnd(r, Bits.Complement(0xf)) % (65536 / 2) ensures PacketSize(len) {
      Masked(r);
      SixteenthsOnly(r - r % 16);
    }
    Masked(len);
    if PacketSize(len) { assert len == Bits.BitAnd(len, Bits.Complement(0xf)) % (65536 / 2); }
  }

  /** The client is in SSL_read. */
  predicate Waiting(s: State) {
    s.phase.Reading? || (s.phase.Draining? && s.totalSent > s.totalReceived)
  }

  /** SSL_write of 0 bytes does not succeed; reads return between 1 byte and a full buffer.
      A server read that returns nothing, at the client's close or on an error, ends the
      server's loop. */
  predicate Enabled(s: State, a: Action) {
    match a
    case Write(len) => s.phase.Sending? && s.phase.i < PACKETS && PacketSize(len) && len > 0
    case WriteFails(len) => s.phase.Sending? && s.phase.i < PACKETS && PacketSize(len)
    case EndPackets => s.phase.Sending? && s.phase.i >= PACKETS
    case Read(n) => Waiting(s) && 0 < n <= |s.ret| && n <= MAX_BUF_SIZE
    case ReadFails => Waiting(s)
    case EndDrain => s.phase.Draining? && s.totalSent <= s.totalReceived
    case ServerRead(n) => s.up && s.held == "" && 0 < n <= |s.fwd| && n <= MAX_BUF_SIZE
    case ServerReadFails => s.up && s.held == ""
    case ServerWrite => s.up && s.held != ""
    case ServerWriteFails => s.up && s.held != ""
  }

  function Do(s: State, a: Action): (s': State)
    requires Enabled(s, a)
  {
    match a
    case Write(len) =>
      var packet := Piece(0, len);
      s.(phase := Reading(s.phase.i), totalSent := s.totalSent + len, sent := s.sent + packet,
         fwd := s.fwd + packet)
    case WriteFails(len) =>
      s.(phase := Draining, totalSent := s.totalSent + len, uncounted := s.uncounted + len)
    case EndPackets => s.(phase := Draining)
    case Read(n) =>
      s.(phase := if s.phase.Reading? then Sending(s.phase.i + 1) else Draining,
         totalReceived := s.totalReceived + n, received := s.received + s.ret[..n], ret := s.ret[n..],
         msgIdx := (s.msgIdx + n) % 4, flagged := s.flagged + Mismatches(Piece(0, n), s.msgIdx))
    case ReadFails =>
      s.(phase := if s.phase.Reading? then Draining else Done, readError := true)
    case EndDrain => s.(phase := Done)
    case ServerRead(n) => s.(held := s.fwd[..n], fwd := s.fwd[n..])
    case ServerReadFails => s.(up := false)
    case ServerWrite => s.(held := "", ret := s.ret + s.held)
    case ServerWriteFails => s.(held := "", lost := s.lost + |s.held|)
  }

  /** The first n actions of a run are possible, one after the other. */
  ghost predicate Possible(run: seq<Action>, n: nat)
    requires n <= |run|
    decreases n, 0
  {
    n == 0 || (Possible(run, n - 1) && Enabled(After(run, n - 1), run[n - 1]))
  }

  ghost function After(run: seq<Action>, n: nat): State
    requires n <= |run| && Possible(run, n)
    decreases n, 1
  {
    if n == 0 then INIT else Do(After(run, n - 1), run[n - 1])
  }

  // ----- what every run keeps

  ghost predicate Counters(s: State) {
    && s.totalSent == |s.sent| + s.uncounted
    && s.totalReceived == |s.received|
    && s.msgIdx == |s.received| % 4
    && |s.received| + |s.ret| + |s.held| + |s.fwd| + s.lost == |s.sent|
    && (s.uncounted > 0 ==> s.phase.Draining? || s.phase.Done?)
    && (!s.up ==> s.held == "")
  }

  /** The totals fit an unsigned int with room to spare. */
  ghost predicate Bounded(s: State) {
    match s.phase
    case Sending(i) => i <= PACKETS && s.totalSent <= i * MAX_PACKET
    case Reading(i) => i < PACKETS && s.totalSent <= (i + 1) * MAX_PACKET
    case _ => s.totalSent <= PACKETS * MAX_PACKET
  }

  ghost predicate Faithful(s: State) {
    && s.sent == Piece(0, |s.sent|) && |s.sent| % 16 == 0
    && (s.lost == 0 ==> s.received + s.ret + s.held + s.fwd == s.sent)
  }

  /** A packet whose read is pending has not been fully echoed, and the client leaves only
      by equality or by a read error. */
  ghost predicate Progressing(s: State) {
    && (s.phase.Reading? && s.lost == 0 ==> |s.received| < |s.sent|)
    && (s.readError ==> s.phase.Draining? || s.phase.Done?)
    && (s.phase.Done? && !s.readError ==> s.totalSent <= s.totalReceived)
  }

  ghost predicate Inv(s: State) {
    Counters(s) && Bounded(s) && Faithful(s) && Progressing(s)
  }

  lemma {:induction false} CountersKept(s: State, a: Action)
    requires Counters(s) && Enabled(s, a)
    ensures Counters(Do(s, a))
  {
    hide At, Piece, Mismatches;
  }

  lemma {:induction false} BoundedKept(s: State, a: Action)
    requires Bounded(s) && Enabled(s, a)
    ensures Bounded(Do(s, a))
  {
    hide Piece, Mismatches;
    if a.EndPackets? || a.WriteFails? {
      assert s.phase.i * MAX_PACKET <= PACKETS * MAX_PACKET;
    }
  }

  lemma {:induction false} FaithfulWrite(s: State, len: nat)
    requires Faithful(s) && Enabled(s, Write(len))
    ensures Faithful(Do(s, Write(len)))
  {
    hide At, Piece, Mismatches;
    WordGrows(s.sent, len);
    WriteOrder(s.received, s.ret, s.held, s.fwd, Piece(0, len));
  }

  lemma {:induction false} FaithfulRead(s: State, n: nat)
    requires Faithful(s) && Enabled(s, Read(n))
    ensures Faithful(Do(s, Read(n)))
  {
    hide At, Piece, Mismatches;
    ReadOrder(s.received, s.ret, s.held, s.fwd, n);
  }

  lemma {:induction false} FaithfulServer(s: State, a: Action)
    requires Faithful(s) && Enabled(s, a) && (a.ServerRead? || a.ServerWrite?)
    ensures Faithful(Do(s, a))
  {
    hide At, Piece, Mismatches;
    if a.ServerRead? { ServerReadOrder(s.received, s.ret, s.fwd, a.n); }
    else { ServerWriteOrder(s.received, s.ret, s.held, s.fwd); }
  }

  lemma {:induction false} FaithfulOther(s: State, a: Action)
    requires Faithful(s) && Enabled(s, a)
    requires a.WriteFails? || a.EndPackets? || a.ReadFails? || a.EndDrain? || a.ServerReadFails? || a.ServerWriteFails?
    ensures Faithful(Do(s, a))
  {
    hide At, Piece, Mismatches;
  }

  lemma {:induction false} FaithfulKept(s: State, a: Action)
    requires Faithful(s) && Enabled(s, a)
    ensures Faithful(Do(s, a))
  {
    hide Do, Enabled, Faithful;
    match a
    case Write(len) => FaithfulWrite(s, len);
    case Read(n) => FaithfulRead(s, n);
    case ServerRead(_) => FaithfulServer(s, a);
    case ServerWrite => FaithfulServer(s, a);
    case _ => FaithfulOther(s, a);
  }

  lemma {:induction false} WriteOrder(r: string, t: string, h: string, f: string, p: string)
    ensures r + t + h + (f + p) == (r + t + h + f) + p
  {
  }

  lemma {:induction false} ReadOrder(r: string, t: string, h: string, f: string, n: nat)
    requires n <= |t|
    ensures (r + t[..n]) + t[n..] + h + f == r + t + h + f
  {
    assert (r + t[..n]) + t[n..] == r + t;
  }

  lemma {:induction false} ServerReadOrder(r: string, t: string, f: string, n: nat)
    requires n <= |f|
    ensures r + t + f[..n] + f[n..] == r + t + "" + f
  {
    assert r + t + "" == r + t;
  }

  lemma {:induction false} ServerWriteOrder(r: string, t: string, h: string, f: string)
    ensures r + (t + h) + "" + f == r + t + h + f
  {
    assert r + (t + h) + "" == r + t + h;
  }

  lemma {:induction false} WordGrows(sent: string, len: nat)
    requires sent == Piece(0, |sent|) && |sent| % 16 == 0 && len % 16 == 0
    ensures sent + Piece(0, len) == Piece(0, |sent| + len) && (|sent| + len) % 16 == 0
  {
    hide At, Piece;
    MultipleOf4(|sent|);
    MultiplesAdd(|sent|, len);
    PiecePeriod(0, |sent|, len);
    PieceConcat(0, |sent|, len);
  }

  lemma {:induction false} MultiplesAdd(m: int, n: int)
    requires m % 16 == 0 && n % 16 == 0
    ensures (m + n) % 16 == 0
  {
  }

  lemma {:induction false} MultipleOf4(n: int)
    requires n % 16 == 0
    ensures (0 - n) % 4 == 0
  {
    assert 0 - n == 4 * (-4 * (n / 16));
  }

  lemma {:induction false} ProgressingKept(s: State, a: Action)
    requires Counters(s) && Progressing(s) && Enabled(s, a)
    ensures Progressing(Do(s, a))
  {
    hide At, Mismatches;
  }

  lemma {:induction false} StepKeepsInv(s: State, a: Action)
    requires Inv(s) && Enabled(s, a)
    ensures Inv(Do(s, a))
  {
    hide Do, Enabled, Counters, Bounded, Faithful, Progressing;
    CountersKept(s, a);
    BoundedKept(s, a);
    FaithfulKept(s, a);
    ProgressingKept(s, a);
  }

  /** Echo protocol invariant: every interleaving and chunking keeps it. */
  lemma {:induction false} InvHolds(run: seq<Action>, n: nat)
    requires n <= |run| && Possible(run, n)
    ensures Inv(After(run, n))
  {
    hide Do, Enabled, Inv;
    if n == 0 {
      InitInv();
    } else {
      InvHolds(run, n - 1);
      StepKeepsInv(After(run, n - 1), run[n - 1]);
    }
  }

  lemma {:induction false} InitInv()
    ensures Inv(INIT)
  {
  }

  // ----- consequences

  /** What has been echoed is a prefix of what was sent, and both are prefixes of the word. */
  lemma {:induction false} EchoIsPrefix(run: seq<Action>, n: nat)
    requires n <= |run| && Possible(run, n)
    ensures var s := After(run, n);
            && s.sent == Piece(0, |s.sent|)
            && (s.lost == 0 ==> s.received <= s.sent && s.received == Piece(0, |s.received|))
  {
    hide After, Possible, At;
    InvHolds(run, n);
    var s := After(run, n);
    if s.lost == 0 {
      assert s.received + s.ret + s.held + s.fwd == s.sent;
      assert s.received == s.sent[..|s.received|];
    }
  }

  /** While the client waits and nothing was miscounted or dropped, a step of the loop back
      to it is possible exactly when the server is still up or bytes have reached the client. */
  lemma {:induction false} NoDeadlock(run: seq<Action>, n: nat)
    requires n <= |run| && Possible(run, n)
    ensures var s := After(run, n);
            Waiting(s) && s.lost == 0 && s.uncounted == 0 ==>
              (Enabled(s, Read(1)) || Enabled(s, ServerWrite) || Enabled(s, ServerRead(1)) <==>
                 s.up || s.ret != "")
  {
    hide After, Possible, Piece, At;
    InvHolds(run, n);
  }

  /** Bytes still on their way to the client, each weighted by the hops left, and one for
      a server that can still end its loop. */
  function Remaining(s: State): (m: nat) {
    3 * |s.fwd| + 2 * |s.held| + |s.ret| + if s.up then 1 else 0
  }

  lemma {:induction false} DrainStep(s: State, a: Action)
    requires (s.phase.Draining? || s.phase.Done?) && Enabled(s, a)
    ensures s.phase.Done? ==> Do(s, a).phase.Done?
    ensures s.phase.Draining? ==>
              Do(s, a).phase.Done? || (Do(s, a).phase.Draining? && Remaining(Do(s, a)) < Remaining(s))
  {
    hide Piece, At, Mismatches;
  }

  /** The drain loop terminates: it is never left for the packet loop, and client and
      server together take at most as many steps in it as the bytes under way have hops,
      and one more for the end of the server's loop. */
  lemma {:induction false} DrainTerminates(run: seq<Action>, m: nat, n: nat)
    requires m <= n <= |run| && Possible(run, n) && Possible(run, m) && After(run, m).phase.Draining?
    ensures After(run, n).phase.Draining? || After(run, n).phase.Done?
    ensures After(run, n).phase.Draining? ==> n - m + Remaining(After(run, n)) <= Remaining(After(run, m))
  {
    hide Do, Enabled, Remaining;
    if m < n {
      DrainTerminates(run, m, n - 1);
      DrainStep(After(run, n - 1), run[n - 1]);
    }
  }

  /** Equal totals at the end leave nothing uncounted, lost or under way. */
  lemma {:induction false} EvenIsEmpty(s: State)
    requires Inv(s) && s.totalSent <= s.totalReceived
    ensures s.totalSent == s.totalReceived && s.uncounted == 0 && s.lost == 0
    ensures s.ret == "" && s.held == "" && s.fwd == "" && s.received == s.sent
  {
    hide Piece, At;
    assert s.ret == "" && s.held == "" && s.fwd == "";
    assert s.received + "" + "" + "" == s.received;
  }

  /** The client ends without a read error only when it has everything it counted as sent,
      and then it counted correctly and received exactly what it wrote. */
  lemma {:induction false} CleanExit(run: seq<Action>, n: nat)
    requires n <= |run| && Possible(run, n) && After(run, n).phase.Done? && !After(run, n).readError
    ensures var s := After(run, n);
            s.totalSent == s.totalReceived && s.uncounted == 0 && s.lost == 0 && s.received == s.sent
  {
    hide After, Possible, Piece, At;
    InvHolds(run, n);
    EvenIsEmpty(After(run, n));
  }

  // ----- runs that go on from a state

  ghost predicate PossibleFrom(s: State, acts: seq<Action>)
    decreases |acts|
  {
    acts == [] || (Enabled(s, acts[0]) && PossibleFrom(Do(s, acts[0]), acts[1..]))
  }

  ghost function EndOf(s: State, acts: seq<Action>): State
    requires PossibleFrom(s, acts)
    decreases |acts|
  {
    if acts == [] then s else EndOf(Do(s, acts[0]), acts[1..])
  }

  predicate Fails(a: Action) {
    a.WriteFails? || a.ReadFails? || a.ServerReadFails? || a.ServerWriteFails?
  }

  ghost predicate FailureFree(acts: seq<Action>) {
    forall i :: 0 <= i < |acts| ==> !Fails(acts[i])
  }

  /** Nothing but a failure can happen any more. */
  ghost predicate Stuck(s: State) {
    forall a :: Enabled(s, a) ==> Fails(a)
  }

  /** The client has left the drain loop with equal totals. */
  predicate EndedEven(s: State) {
    s.phase.Done? && s.totalSent == s.totalReceived
  }

  /** What the client counted as sent can still reach it. */
  predicate Drainable(s: State) {
    s.uncounted == 0 && s.lost == 0 && (s.up || s.fwd == "")
  }

  lemma {:induction false} StepKeepsObstacles(s: State, a: Action)
    requires Counters(s) && Enabled(s, a) && (s.phase.Draining? || s.phase.Done?)
    ensures Do(s, a).phase.Draining? || Do(s, a).phase.Done?
    ensures !Drainable(s) ==> !Drainable(Do(s, a))
    ensures Drainable(s) && !Fails(a) ==> Drainable(Do(s, a))
  {
    hide Piece, Mismatches;
  }

  lemma {:induction false} ObstaclesStay(s: State, acts: seq<Action>)
    requires Inv(s) && PossibleFrom(s, acts) && (s.phase.Draining? || s.phase.Done?)
    ensures Inv(EndOf(s, acts))
    ensures !Drainable(s) ==> !Drainable(EndOf(s, acts))
    decreases |acts|
  {
    hide Bounded, Faithful, Progressing, Counters, Enabled, Do, Drainable;
    if acts != [] {
      StepKeepsInv(s, acts[0]);
      StepKeepsObstacles(s, acts[0]);
      ObstaclesStay(Do(s, acts[0]), acts[1..]);
    }
  }

  /** One step of a drain in which nothing fails. */
  lemma {:induction false} FreeDrainStep(s: State, a: Action)
    requires Inv(s) && s.phase.Draining? && Drainable(s) && Enabled(s, a) && !Fails(a)
    ensures Inv(Do(s, a)) && Drainable(Do(s, a))
    ensures Do(s, a).phase.Draining? ==> Remaining(Do(s, a)) < Remaining(s)
    ensures !Do(s, a).phase.Draining? ==>
              EndedEven(Do(s, a)) && Do(s, a).received == Do(s, a).sent && Stuck(Do(s, a))
  {
    hide Bounded, Faithful, Progressing, Piece, At, Mismatches;
    StepKeepsInv(s, a);
    StepKeepsObstacles(s, a);
    DrainStep(s, a);
    if a.EndDrain? { EvenIsEmpty(s); }
  }

  lemma {:induction false} SomethingFreeEnabled(s: State)
    requires Inv(s) && s.phase.Draining? && Drainable(s)
    ensures Enabled(s, Read(1)) || Enabled(s, ServerWrite) || Enabled(s, ServerRead(1)) || Enabled(s, EndDrain)
  {
    hide Piece, At;
  }

  /** A drain in which nothing fails is finite, and when it can go no further the client has
      ended with equal totals and everything it wrote. */
  lemma {:induction false} FailureFreeDrain(s: State, acts: seq<Action>)
    requires Inv(s) && s.phase.Draining? && Drainable(s)
    requires PossibleFrom(s, acts) && FailureFree(acts)
    ensures |acts| <= Remaining(s) + 1
    ensures Stuck(EndOf(s, acts)) ==> EndedEven(EndOf(s, acts)) && EndOf(s, acts).received == EndOf(s, acts).sent
    decreases |acts|
  {
    hide Inv, Do, Enabled, Remaining;
    if acts == [] {
      SomethingFreeEnabled(s);
    } else {
      var t := Do(s, acts[0]);
      FreeDrainStep(s, acts[0]);
      if t.phase.Draining? {
        FailureFreeDrain(t, acts[1..]);
      } else {
        assert acts[1..] == [];
      }
    }
  }

  /** From a drain state whose bytes can all still arrive the client can still end even. */
  lemma {:induction false} CanEndEven(s: State) returns (acts: seq<Action>)
    requires Inv(s) && s.phase.Draining? && Drainable(s)
    ensures PossibleFrom(s, acts) && FailureFree(acts) && EndedEven(EndOf(s, acts))
    decreases Remaining(s)
  {
    hide Inv, Do, Enabled, Remaining;
    SomethingFreeEnabled(s);
    var a := if Enabled(s, EndDrain) then EndDrain else if Enabled(s, Read(1)) then Read(1)
             else if Enabled(s, ServerWrite) then ServerWrite else ServerRead(1);
    FreeDrainStep(s, a);
    var t := Do(s, a);
    var rest := [];
    if t.phase.Draining? { rest := CanEndEven(t); }
    acts := [a] + rest;
    assert acts[1..] == rest;
  }

  /** In any run, a client in the drain loop can still end with equal totals if and only if
      no failed write was counted, no echo was dropped, and the server has not ended its loop
      with bytes unread. */
  lemma {:induction false} DrainsEvenIff(run: seq<Action>, n: nat)
    requires n <= |run| && Possible(run, n) && After(run, n).phase.Draining?
    ensures (exists acts :: PossibleFrom(After(run, n), acts) && EndedEven(EndOf(After(run, n), acts))) <==>
              var s := After(run, n);
              s.uncounted == 0 && s.lost == 0 && (s.up || s.fwd == "")
  {
    hide After, Possible, Inv, PossibleFrom, EndOf;
    InvHolds(run, n);
    var s := After(run, n);
    forall acts | PossibleFrom(s, acts) && EndedEven(EndOf(s, acts)) ensures Drainable(s) {
      ObstaclesStay(s, acts);
      EvenIsEmpty(EndOf(s, acts));
    }
    if Drainable(s) {
      var acts := CanEndEven(s);
    }
  }

  lemma {:induction false} FailureFreeRun(run: seq<Action>, n: nat)
    requires n <= |run| && Possible(run, n) && FailureFree(run)
    ensures var s := After(run, n); s.uncounted == 0 && s.lost == 0 && s.up && !s.readError
  {
    hide Enabled, Piece, Mismatches;
    if n > 0 {
      FailureFreeRun(run, n - 1);
      assert !Fails(run[n - 1]);
    }
  }

  lemma {:induction false} SendingGoesOn(s: State)
    requires s.phase.Sending?
    ensures Enabled(s, Write(16)) || Enabled(s, EndPackets)
  {
  }

  /** A whole run in which nothing fails and that can go no further has ended: the client
      sent its packets, received all of them back and counted them right. */
  lemma {:induction false} MaximalRunEndsEven(run: seq<Action>)
    requires Possible(run, |run|) && FailureFree(run)
    ensures Stuck(After(run, |run|)) ==>
              EndedEven(After(run, |run|)) && After(run, |run|).received == After(run, |run|).sent
  {
    hide Possible, After, Inv, Piece, FailureFree;
    var s := After(run, |run|);
    InvHolds(run, |run|);
    FailureFreeRun(run, |run|);
    if Stuck(s) {
      match s.phase
      case Sending(_) => SendingGoesOn(s);
      case Reading(_) => NoDeadlock(run, |run|);
      case Draining => SomethingFreeEnabled(s);
      case Done => CleanExit(run, |run|);
    }
  }

  // ----- the state of a run, from its actions alone

  /** The sum of a weight over the first n actions. */
  ghost function Sum(run: seq<Action>, n: nat, weight: Action -> nat): nat
    requires n <= |run|
  {
    if n == 0 then 0 else Sum(run, n - 1, weight) + weight(run[n - 1])
  }

  function Written(a: Action): nat { if a.Write? then a.len else 0 }
  function Attempted(a: Action): nat { if a.Write? || a.WriteFails? then a.len else 0 }
  function ReadBack(a: Action): nat { if a.Read? then a.n else 0 }
  function Fetched(a: Action): nat { if a.ServerRead? then a.n else 0 }

  function Writes(a: Action): nat { if a.Write? then 1 else 0 }
  function Reads(a: Action): nat { if a.Read? then 1 else 0 }
  function FailedWrites(a: Action): nat { if a.WriteFails? then 1 else 0 }
  function FailedReads(a: Action): nat { if a.ReadFails? then 1 else 0 }
  function PacketEnds(a: Action): nat { if a.EndPackets? then 1 else 0 }
  function DrainEnds(a: Action): nat { if a.EndDrain? then 1 else 0 }
  function ServerEnds(a: Action): nat { if a.ServerReadFails? then 1 else 0 }

  /** What the server has read and neither written back nor dropped. */
  ghost function InServer(run: seq<Action>, n: nat): nat
    requires n <= |run|
  {
    if n == 0 then 0
    else
      match run[n - 1]
      case ServerRead(k) => k
      case ServerWrite => 0
      case ServerWriteFails => 0
      case _ => InServer(run, n - 1)
  }

  ghost function Dropped(run: seq<Action>, n: nat): nat
    requires n <= |run|
  {
    if n == 0 then 0
    else Dropped(run, n - 1) + if run[n - 1].ServerWriteFails? then InServer(run, n - 1) else 0
  }

  lemma {:induction false} ClientAccount(run: seq<Action>, n: nat)
    requires n <= |run| && Possible(run, n)
    ensures var s := After(run, n);
            && s.totalSent == Sum(run, n, Attempted) && s.totalReceived == Sum(run, n, ReadBack)
            && (s.readError <==> Sum(run, n, FailedReads) > 0)
  {
    hide Do, Enabled;
    if n > 0 {
      ClientAccount(run, n - 1);
      ClientStep(After(run, n - 1), run[n - 1]);
    }
  }

  lemma {:induction false} ClientStep(s: State, a: Action)
    requires Enabled(s, a)
    ensures Do(s, a).totalSent == s.totalSent + Attempted(a) && Do(s, a).totalReceived == s.totalReceived + ReadBack(a)
    ensures Do(s, a).readError == (s.readError || a.ReadFails?)
  {
    hide Piece, At, Mismatches;
  }

  lemma {:induction false} QueueAccount(run: seq<Action>, n: nat)
    requires n <= |run| && Possible(run, n)
    ensures |After(run, n).sent| == Sum(run, n, Written)
    ensures |After(run, n).fwd| == Sum(run, n, Written) - Sum(run, n, Fetched)
  {
    hide Do, Enabled;
    if n > 0 {
      QueueAccount(run, n - 1);
      QueueStep(After(run, n - 1), run[n - 1]);
    }
  }

  lemma {:induction false} QueueStep(s: State, a: Action)
    requires Enabled(s, a)
    ensures |Do(s, a).sent| == |s.sent| + Written(a)
    ensures |Do(s, a).fwd| == |s.fwd| + Written(a) - Fetched(a)
  {
    hide Piece, At, Mismatches;
  }

  lemma {:induction false} ServerAccount(run: seq<Action>, n: nat)
    requires n <= |run| && Possible(run, n)
    ensures var s := After(run, n);
            && |s.held| == InServer(run, n) && s.lost == Dropped(run, n)
            && (s.up <==> Sum(run, n, ServerEnds) == 0)
  {
    hide Do, Enabled;
    if n > 0 {
      ServerAccount(run, n - 1);
      ServerStep(After(run, n - 1), run[n - 1]);
    }
  }

  lemma {:induction false} ServerStep(s: State, a: Action)
    requires Enabled(s, a)
    ensures |Do(s, a).held| ==
            if a.ServerRead? then a.n else if a.ServerWrite? || a.ServerWriteFails? then 0 else |s.held|
    ensures Do(s, a).lost == s.lost + if a.ServerWriteFails? then |s.held| else 0
    ensures Do(s, a).up == (s.up && !a.ServerReadFails?)
  {
    hide Piece, At, Mismatches;
  }

  /** Every counter and every queue length of a run is an account of its actions. */
  lemma {:induction false} RunAccount(run: seq<Action>, n: nat)
    requires n <= |run| && Possible(run, n)
    ensures var s := After(run, n);
            && s.totalSent == Sum(run, n, Attempted) && |s.sent| == Sum(run, n, Written)
            && s.totalReceived == |s.received| == Sum(run, n, ReadBack)
            && |s.fwd| == Sum(run, n, Written) - Sum(run, n, Fetched)
            && |s.held| == InServer(run, n) && s.lost == Dropped(run, n)
            && |s.ret| == Sum(run, n, Fetched) - InServer(run, n) - Dropped(run, n) - Sum(run, n, ReadBack)
            && (s.up <==> Sum(run, n, ServerEnds) == 0)
            && (s.readError <==> Sum(run, n, FailedReads) > 0)
  {
    hide After, Possible, Sum, InServer, Dropped, Bounded, Faithful, Progressing;
    ClientAccount(run, n);
    QueueAccount(run, n);
    ServerAccount(run, n);
    InvHolds(run, n);
  }

  /** Where the client is, from its actions: it writes and reads packet by packet, leaves
      the packet loop once, after 100 packets, at a failed write or at a failed read, and
      then leaves the drain loop once. */
  lemma {:induction false} LoopAccount(run: seq<Action>, n: nat)
    requires n <= |run| && Possible(run, n)
    ensures var w, r := Sum(run, n, Writes), Sum(run, n, Reads);
            var full, badWrite := Sum(run, n, PacketEnds), Sum(run, n, FailedWrites);
            var badReads, even := Sum(run, n, FailedReads), Sum(run, n, DrainEnds);
            && (full == 1 ==> w == 100) && (badWrite == 1 ==> w < 100) && w <= 100
            && match After(run, n).phase
               case Sending(i) => w == r == i && full == badWrite == badReads == even == 0
               case Reading(i) => w == r + 1 == i + 1 && full == badWrite == badReads == even == 0
               case Draining => full + badWrite + badReads == 1 && even == 0 && w >= badReads
               case Done => full + badWrite + badReads + even == 2 && full + badWrite <= 1 && even <= 1
  {
    hide Do, Enabled;
    if n > 0 {
      LoopAccount(run, n - 1);
      PhaseStep(After(run, n - 1), run[n - 1]);
    }
  }

  /** The client's program, one action at a time. */
  lemma {:induction false} PhaseStep(s: State, a: Action)
    requires Enabled(s, a)
    ensures var p, q := s.phase, Do(s, a).phase;
            match a
            case Write(_) => p.Sending? && p.i < 100 && q == Reading(p.i)
            case WriteFails(_) => p.Sending? && p.i < 100 && q == Draining
            case EndPackets => p.Sending? && p.i >= 100 && q == Draining
            case Read(_) => if p.Reading? then q == Sending(p.i + 1) else p == q == Draining
            case ReadFails => if p.Reading? then q == Draining else p == Draining && q == Done
            case EndDrain => p == Draining && q == Done
            case _ => p == q
  {
    hide Piece, At, Mismatches;
  }

  lemma {:induction false} NoFailures(run: seq<Action>, n: nat)
    requires n <= |run| && FailureFree(run)
    ensures Sum(run, n, FailedWrites) == Sum(run, n, FailedReads) == 0
  {
    if n > 0 {
      assert !Fails(run[n - 1]);
      NoFailures(run, n - 1);
    }
  }

  /** When nothing fails, the client is in or past the drain loop only after 100 writes. */
  lemma {:induction false} HundredPackets(run: seq<Action>, n: nat)
    requires n <= |run| && Possible(run, n) && FailureFree(run)
    ensures After(run, n).phase.Draining? || After(run, n).phase.Done? ==>
              Sum(run, n, Writes) == 100 && Sum(run, n, PacketEnds) == 1
  {
    hide After, Possible, FailureFree, Sum;
    LoopAccount(run, n);
    NoFailures(run, n);
  }

  /** Failed reads taken in the drain loop. */
  ghost function DrainFailures(run: seq<Action>, n: nat): nat
    requires n <= |run| && Possible(run, n)
  {
    if n == 0 then 0
    else
      DrainFailures(run, n - 1) +
      if run[n - 1].ReadFails? && After(run, n - 1).phase.Draining? then 1 else 0
  }

  /** The client leaves the drain loop by the loop condition or by a failed read in that
      loop, and the totals tell which: they are equal exactly in the first case. */
  lemma {:induction false} HowItEnds(run: seq<Action>, n: nat)
    requires n <= |run| && Possible(run, n)
    ensures After(run, n).phase.Done? ==>
              && Sum(run, n, DrainEnds) + DrainFailures(run, n) == 1
              && (EndedEven(After(run, n)) <==> Sum(run, n, DrainEnds) == 1)
              && (After(run, n).totalReceived < After(run, n).totalSent <==> DrainFailures(run, n) == 1)
    ensures !After(run, n).phase.Done? ==> Sum(run, n, DrainEnds) == DrainFailures(run, n) == 0
  {
    hide Do, Enabled, Inv;
    if n > 0 {
      HowItEnds(run, n - 1);
      InvHolds(run, n - 1);
      PhaseStep(After(run, n - 1), run[n - 1]);
      LastStep(After(run, n - 1), run[n - 1]);
    }
  }

  lemma {:induction false} LastStep(s: State, a: Action)
    requires Inv(s) && Enabled(s, a)
    ensures s.phase.Done? ==> Do(s, a).totalSent == s.totalSent && Do(s, a).totalReceived == s.totalReceived
    ensures a.EndDrain? ==> Do(s, a).totalSent == Do(s, a).totalReceived
    ensures a.ReadFails? && s.phase.Draining? ==> Do(s, a).totalReceived < Do(s, a).totalSent
  {
    hide Inv, Piece, At, Mismatches;
    if a.EndDrain? { EvenIsEmpty(s); }
  }

  /** A read error in the packet loop does not keep the client from ending even. */
  lemma {:induction false} ReadErrorThenEven(run: seq<Action>)
    requires run == [Write(16), ServerRead(16), ServerWrite, ReadFails, Read(16), EndDrain]
    ensures Possible(run, 6) && After(run, 6).readError && EndedEven(After(run, 6))
  {
    hide Possible, After, Piece, At, Mismatches;
    Starts(run);
    Extends(run, 0);
    Extends(run, 1);
    Extends(run, 2);
    Extends(run, 3);
    Extends(run, 4);
    Extends(run, 5);
  }

  // ----- any packets can be sent, and any write can fail

  /** The run starts with packets of these sizes, each going round before the next is written. */
  ghost predicate LockStep(run: seq<Action>, sizes: seq<nat>) {
    && |sizes| <= 100 && 4 * |sizes| <= |run|
    && (forall k :: 0 <= k < |sizes| ==> PacketSize(sizes[k]) && sizes[k] > 0)
    && (forall k {:trigger sizes[k]} :: 0 <= k < |sizes| ==>
          && run[4 * k] == Write(sizes[k]) && run[4 * k + 1] == ServerRead(sizes[k])
          && run[4 * k + 2] == ServerWrite && run[4 * k + 3] == Read(sizes[k]))
  }

  /** All queues empty, nothing failed, nothing flagged. */
  predicate Settled(s: State) {
    && s.fwd == "" && s.held == "" && s.ret == "" && s.up && s.flagged == 0
    && s.totalSent == s.totalReceived
  }

  lemma {:induction false} Round(run: seq<Action>, n: nat, i: nat, len: nat)
    requires n + 4 <= |run| && i < 100 && PacketSize(len) && len > 0
    requires run[n] == Write(len) && run[n + 1] == ServerRead(len)
    requires run[n + 2] == ServerWrite && run[n + 3] == Read(len)
    requires Possible(run, n) && After(run, n).phase == Sending(i)
    requires Settled(After(run, n)) && After(run, n).msgIdx == 0
    ensures Possible(run, n + 4) && After(run, n + 4).phase == Sending(i + 1)
    ensures Settled(After(run, n + 4)) && After(run, n + 4).msgIdx == 0
  {
    hide Possible, After, Do, Enabled, Settled, PacketSize;
    Extends(run, n);
    Outward(After(run, n), len);
    Extends(run, n + 1);
    Extends(run, n + 2);
    Homeward(After(run, n + 2), len);
    Extends(run, n + 3);
  }

  /** One packet is in the server, and nothing else is under way. */
  predicate AtServer(s: State, len: nat) {
    && s.fwd == "" && |s.held| == len && s.ret == "" && s.up && s.flagged == 0
    && s.totalSent == s.totalReceived + len && s.msgIdx == 0
  }

  lemma {:induction false} Outward(s: State, len: nat)
    requires s.phase.Sending? && s.phase.i < 100 && PacketSize(len) && len > 0
    requires Settled(s) && s.msgIdx == 0
    ensures Enabled(s, Write(len))
    ensures var t := Do(s, Write(len));
            && Enabled(t, ServerRead(len))
            && Do(t, ServerRead(len)).phase == Reading(s.phase.i) && AtServer(Do(t, ServerRead(len)), len)
  {
    hide Piece, At, Mismatches;
  }

  lemma {:induction false} Homeward(s: State, len: nat)
    requires s.phase.Reading? && PacketSize(len) && len > 0 && AtServer(s, len)
    ensures Enabled(s, ServerWrite)
    ensures var t := Do(s, ServerWrite);
            && Enabled(t, Read(len))
            && Do(t, Read(len)).phase == Sending(s.phase.i + 1)
            && Settled(Do(t, Read(len))) && Do(t, Read(len)).msgIdx == 0
  {
    hide Piece, At, Mismatches;
    MismatchesOfPiece(0, len, 0);
    MultipleOf4(len);
  }

  lemma {:induction false} Rounds(run: seq<Action>, sizes: seq<nat>, k: nat)
    requires LockStep(run, sizes) && k <= |sizes|
    ensures Possible(run, 4 * k) && After(run, 4 * k).phase == Sending(k)
    ensures Settled(After(run, 4 * k)) && After(run, 4 * k).msgIdx == 0
  {
    hide Possible, After, PacketSize, Settled;
    if k == 0 {
      Starts(run);
      InitSettled();
    } else {
      Rounds(run, sizes, k - 1);
      assert sizes[k - 1] > 0;
      Round(run, 4 * (k - 1), k - 1, sizes[k - 1]);
    }
  }

  lemma {:induction false} InitSettled()
    ensures Settled(INIT) && INIT.msgIdx == 0 && INIT.phase == Sending(0)
  {
  }

  /** Whatever 100 non-empty packets the client draws, there is a run that sends them all,
      gets them all back unflagged and ends even. */
  lemma {:induction false} AnyPacketsComplete(run: seq<Action>, sizes: seq<nat>)
    requires LockStep(run, sizes) && |sizes| == 100
    requires |run| == 402 && run[400] == EndPackets && run[401] == EndDrain
    ensures Possible(run, 402) && EndedEven(After(run, 402)) && After(run, 402).flagged == 0
  {
    hide Possible, After, LockStep, Piece, At, Mismatches;
    Rounds(run, sizes, 100);
    Extends(run, 400);
    Extends(run, 401);
  }

  /** After any packets, a write of any drawn length can fail, and is counted. */
  lemma {:induction false} MiscountHappens(run: seq<Action>, sizes: seq<nat>, len: nat)
    requires LockStep(run, sizes) && |sizes| < 100 && PacketSize(len)
    requires |run| == 4 * |sizes| + 1 && run[4 * |sizes|] == WriteFails(len)
    ensures Possible(run, |run|) && After(run, |run|).phase.Draining? && After(run, |run|).uncounted == len
  {
    hide Possible, After, LockStep, Piece, At, Mismatches, PacketSize;
    Rounds(run, sizes, |sizes|);
    InvHolds(run, 4 * |sizes|);
    Extends(run, 4 * |sizes|);
  }

  // ----- every run is finite

  const PACKET_FUEL := 3 * MAX_PACKET + 2

  /** Steps the client's program can still take, apart from those that move bytes. */
  function ProgramFuel(p: Phase): (m: int) {
    match p
    case Sending(i) => (PACKETS - i) * PACKET_FUEL + 2
    case Reading(i) => (PACKETS - i - 1) * PACKET_FUEL + 3
    case Draining => 1
    case Done => 0
  }

  function Fuel(s: State): (m: int) {
    ProgramFuel(s.phase) + Remaining(s)
  }

  lemma {:induction false} FuelDecreases(s: State, a: Action)
    requires Bounded(s) && Enabled(s, a)
    ensures Fuel(Do(s, a)) < Fuel(s)
  {
    hide Piece, At, Mismatches;
    if s.phase.Sending? {
      var left := PACKETS - s.phase.i;
      assert left * PACKET_FUEL == (left - 1) * PACKET_FUEL + PACKET_FUEL;
      assert left >= 1 ==> (left - 1) * PACKET_FUEL >= 0;
    } else if s.phase.Reading? {
      assert (PACKETS - s.phase.i - 1) * PACKET_FUEL >= 0;
    }
  }

  lemma {:induction false} FuelNonNegative(s: State)
    requires Bounded(s)
    ensures Fuel(s) >= 0
  {
    match s.phase
    case Sending(i) => assert (PACKETS - i) * PACKET_FUEL >= 0;
    case Reading(i) => assert (PACKETS - i - 1) * PACKET_FUEL >= 0;
    case _ =>
  }

  /** Every run is finite, whatever fails: no run takes more than 9825803 steps.  With
      `MaximalRunEndsEven`, every execution in which nothing fails ends even. */
  lemma {:induction false} RunsTerminate(run: seq<Action>, n: nat)
    requires n <= |run| && Possible(run, n)
    ensures n + Fuel(After(run, n)) <= Fuel(INIT) == 9825803
    ensures n <= 9825803
  {
    hide Do, Enabled, Fuel;
    if n == 0 {
      InitFuel();
    } else {
      RunsTerminate(run, n - 1);
      InvHolds(run, n - 1);
      FuelDecreases(After(run, n - 1), run[n - 1]);
    }
    InvHolds(run, n);
    FuelNonNegative(After(run, n));
  }

  lemma {:induction false} InitFuel()
    ensures Fuel(INIT) == 9825803
  {
  }

  // ----- miscounts

  /** A failed write of a non-empty packet, counted before it was tried, or a dropped echo
      keeps the totals apart for ever: such a run can end only by a read error. */
  lemma {:induction false} MiscountNeverDrains(run: seq<Action>, n: nat)
    requires n <= |run| && Possible(run, n)
    ensures After(run, n).uncounted > 0 || After(run, n).lost > 0 ==>
              && After(run, n).totalReceived < After(run, n).totalSent
              && (After(run, n).phase.Done? ==> After(run, n).readError)
  {
    hide After, Possible, Piece, At;
    InvHolds(run, n);
  }

  lemma {:induction false} Extends(run: seq<Action>, n: nat)
    requires n < |run| && Possible(run, n)
    ensures Possible(run, n + 1) <==> Enabled(After(run, n), run[n])
    ensures Possible(run, n + 1) ==> After(run, n + 1) == Do(After(run, n), run[n])
  {
  }

  lemma {:induction false} Starts(run: seq<Action>)
    ensures Possible(run, 0) && After(run, 0) == INIT
  {
  }

  /** An echo does get dropped. */
  lemma {:induction false} LossHappens(run: seq<Action>)
    requires run == [Write(16), ServerRead(16), ServerWriteFails]
    ensures Possible(run, 3) && After(run, 3).lost == 16
  {
    hide Possible, After, Piece, At, Mismatches;
    Starts(run);
    Extends(run, 0);
    Extends(run, 1);
    Extends(run, 2);
  }

  /** The server does end its loop with bytes unread, with nothing miscounted or dropped,
      and then the client cannot end even. */
  lemma {:induction false} ServerStops(run: seq<Action>)
    requires run == [Write(16), ServerReadFails, ReadFails]
    ensures Possible(run, 3)
    ensures var s := After(run, 3);
            s.phase.Draining? && s.uncounted == 0 && s.lost == 0 && !s.up && s.fwd != ""
    ensures !exists acts :: PossibleFrom(After(run, 3), acts) && EndedEven(EndOf(After(run, 3), acts))
  {
    hide Possible, After, Piece, At, Mismatches, PossibleFrom, EndOf;
    Starts(run);
    Extends(run, 0);
    Extends(run, 1);
    Extends(run, 2);
    DrainsEvenIff(run, 3);
  }

  // ----- the check

  /** The check as written flags every byte of the read iff the bytes before it are not a
      multiple of 4; the same check on the bytes read flags none of them.  So the two agree
      exactly when the bytes before are a multiple of 4. */
  lemma {:induction false} CheckCharacterised(run: seq<Action>, n: nat, k: nat)
    requires n <= |run| && Possible(run, n)
    ensures var s := After(run, n);
            Enabled(s, Read(k)) ==>
              Do(s, Read(k)).flagged - s.flagged == if s.totalReceived % 4 == 0 then 0 else k
    ensures var s := After(run, n);
            Enabled(s, Read(k)) && s.lost == 0 ==>
              && Mismatches(s.ret[..k], s.totalReceived) == 0
              && (Do(s, Read(k)).flagged - s.flagged == Mismatches(s.ret[..k], s.totalReceived) <==>
                    s.totalReceived % 4 == 0)
  {
    hide After, Possible, At, Mismatches, Piece;
    InvHolds(run, n);
    var s := After(run, n);
    MismatchesOfPiece(0, k, s.msgIdx);
    if Enabled(s, Read(k)) && s.lost == 0 {
      NextBytes(s, k);
      MismatchesOfPiece(s.totalReceived, k, s.totalReceived);
    }
  }

  predicate UnevenRead(run: seq<Action>) {
    run == [Write(16), ServerRead(16), ServerWrite, Read(3), Write(16), Read(1)]
  }

  lemma {:induction false} UnevenStart(run: seq<Action>)
    requires UnevenRead(run)
    ensures Possible(run, 3)
    ensures var s := After(run, 3);
            && s.phase == Reading(0) && |s.ret| == 16 && s.held == "" && s.fwd == ""
            && s.totalReceived == 0 && s.flagged == 0 && s.lost == 0 && s.uncounted == 0
  {
    hide Possible, After, Piece, At, Mismatches;
    Starts(run);
    Extends(run, 0);
    Extends(run, 1);
    Extends(run, 2);
  }

  lemma {:induction false} UnevenMiddle(run: seq<Action>)
    requires UnevenRead(run)
    ensures Possible(run, 5)
    ensures var s := After(run, 5);
            && s.phase == Reading(1) && |s.ret| == 13 && s.totalReceived == 3
            && s.flagged == 0 && s.lost == 0 && s.uncounted == 0
  {
    hide Possible, After, Piece, At, Mismatches;
    UnevenStart(run);
    Extends(run, 3);
    CheckCharacterised(run, 3, 3);
    Extends(run, 4);
  }

  /** A faithful echo that is flagged: three bytes are read first, then one more. */
  lemma {:induction false} FaithfulEchoFlagged(run: seq<Action>)
    requires UnevenRead(run)
    ensures Possible(run, 6)
    ensures var s := After(run, 6);
            s.lost == 0 && s.uncounted == 0 && s.flagged == 1 && s.received == Piece(0, 4)
  {
    hide Possible, After, Piece, At, Mismatches;
    UnevenMiddle(run);
    Extends(run, 5);
    CheckCharacterised(run, 5, 1);
    EchoIsPrefix(run, 6);
    InvHolds(run, 6);
  }

  lemma {:induction false} NextBytes(s: State, k: nat)
    requires Counters(s) && Faithful(s) && s.lost == 0 && k <= |s.ret|
    ensures s.ret[..k] == Piece(s.totalReceived, k)
  {
    hide At;
    var b := s.totalReceived;
    assert s.sent[b..b + k] == s.ret[..k] by {
      assert s.sent == s.received + s.ret + s.held + s.fwd;
    }
  }

  /** Totals never leave the range of a 32-bit unsigned int. */
  lemma {:induction false} TotalsFit(run: seq<Action>, n: nat)
    requires n <= |run| && Possible(run, n)
    ensures After(run, n).totalReceived <= After(run, n).totalSent <= 3275200 < 0x1_0000_0000
  {
    hide After, Possible, Piece, At;
    InvHolds(run, n);
  }
}
