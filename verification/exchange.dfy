/**
 The two programs connected to each other. Each endpoint reads from the
 other's writes, in order, and blocks on a read nothing has been written
 for. Because each run is a function of what it has read so far, and
 reading more never retracts a write, the exchange is the least transcript
 that both runs agree with. It is reached by starting from "nothing written"
 and letting both endpoints catch up, over and over.
 */
module Exchange {
  import opened Words
  import opened Header
  import opened Checksum
  import Client
  import Server

  /** What each endpoint has written so far. */
  datatype Transcript = Transcript(client: seq<Segment>, server: seq<Segment>)

  /** Both endpoints run against everything the other has written so far. */
  function Step(s0: Segment, cd: Client.Draws, sd: Server.Draws, t: Transcript): (u: Transcript)
    ensures |u.client| <= 4 && |u.server| <= 3
  {
    Transcript(Client.Run(s0, cd, t.server), Server.Run(sd, t.client))
  }

  predicate Below(t: Transcript, u: Transcript) {
    IsPrefix(t.client, u.client) && IsPrefix(t.server, u.server)
  }

  function Size(t: Transcript): nat {
    |t.client| + |t.server|
  }

  /** Reading more never makes either endpoint write less. */
  lemma StepMonotone(s0: Segment, cd: Client.Draws, sd: Server.Draws, t: Transcript, u: Transcript)
    requires Below(t, u)
    ensures Below(Step(s0, cd, sd, t), Step(s0, cd, sd, u))
  {
    Client.RunMonotone(s0, cd, t.server, u.server);
    Server.RunMonotone(sd, t.client, u.client);
  }

  /** A round of the exchange as a function value, for the iteration below. */
  function Round(s0: Segment, cd: Client.Draws, sd: Server.Draws): Transcript -> Transcript {
    t => Step(s0, cd, sd, t)
  }

  ghost predicate Monotone(f: Transcript -> Transcript) {
    forall t: Transcript, u: Transcript :: Below(t, u) ==> Below(f(t), f(u))
  }

  ghost predicate BoundedBy(f: Transcript -> Transcript, bound: nat) {
    forall t: Transcript :: Size(f(t)) <= bound
  }

  lemma RoundIsMonotoneAndBounded(s0: Segment, cd: Client.Draws, sd: Server.Draws)
    ensures Monotone(Round(s0, cd, sd))
    ensures BoundedBy(Round(s0, cd, sd), 7)
  {
    forall t: Transcript, u: Transcript | Below(t, u)
      ensures Below(Round(s0, cd, sd)(t), Round(s0, cd, sd)(u))
    {
      StepMonotone(s0, cd, sd, t, u);
    }
  }

  /** `n` rounds of `f`, starting from nothing written. */
  function Iterate(f: Transcript -> Transcript, n: nat): Transcript {
    if n == 0 then Transcript([], []) else f(Iterate(f, n - 1))
  }

  /** Each round only extends what has been written. */
  lemma {:induction false} IterateAscends(f: Transcript -> Transcript, n: nat)
    requires Monotone(f)
    ensures Below(Iterate(f, n), Iterate(f, n + 1))
  {
    if n > 0 {
      IterateAscends(f, n - 1);
    }
  }

  lemma BelowAndDifferent(t: Transcript, u: Transcript)
    requires Below(t, u) && t != u
    ensures Size(t) < Size(u)
  {
    assert u.client[..|u.client|] == u.client;
    assert u.server[..|u.server|] == u.server;
  }

  /** A round that changes anything brings the total written to at least the round number. */
  lemma {:induction false} IterateGrows(f: Transcript -> Transcript, n: nat)
    requires Monotone(f)
    ensures Iterate(f, n) != Iterate(f, n + 1) ==> Size(Iterate(f, n + 1)) >= n + 1
  {
    var t := Iterate(f, n);
    var u := Iterate(f, n + 1);
    if t != u {
      IterateAscends(f, n);
      BelowAndDifferent(t, u);
      if n > 0 {
        IterateGrows(f, n - 1);
      }
    }
  }

  /**
   A monotone round that never yields more than `bound` segments changes
   nothing after `bound + 1` rounds: every round that changes something adds
   a segment.
   */
  lemma IterateSettles(f: Transcript -> Transcript, bound: nat)
    requires Monotone(f) && BoundedBy(f, bound)
    ensures f(Iterate(f, bound + 1)) == Iterate(f, bound + 1)
  {
    IterateGrows(f, bound + 1);
  }

  /**
   Rounds enough to settle: each round that changes the transcript adds at
   least one segment, the client writes at most four and the server at most
   three, so after 4 + 3 + 1 rounds nothing changes any more.
   */
  const ROUNDS: nat := 4 + 3 + 1

  /**
   The transcript of one connection: after ROUNDS rounds neither endpoint
   has anything more to write in answer to the other.
   */
  function Settle(s0: Segment, cd: Client.Draws, sd: Server.Draws): (t: Transcript)
    ensures Step(s0, cd, sd, t) == t
    ensures |t.client| <= 4 && |t.server| <= 3
  {
    RoundIsMonotoneAndBounded(s0, cd, sd);
    IterateSettles(Round(s0, cd, sd), ROUNDS - 1);
    Iterate(Round(s0, cd, sd), ROUNDS)
  }

  /** Every transcript both endpoints agree with contains the iterates. */
  lemma {:induction false} IterateBelowFixedPoint(f: Transcript -> Transcript, n: nat, t: Transcript)
    requires Monotone(f) && f(t) == t
    ensures Below(Iterate(f, n), t)
  {
    if n > 0 {
      IterateBelowFixedPoint(f, n - 1, t);
    }
  }

  /** The settled transcript is the least one both endpoints agree with. */
  lemma SettleIsLeast(s0: Segment, cd: Client.Draws, sd: Server.Draws, t: Transcript)
    requires Step(s0, cd, sd, t) == t
    ensures Below(Settle(s0, cd, sd), t)
  {
    RoundIsMonotoneAndBounded(s0, cd, sd);
    IterateBelowFixedPoint(Round(s0, cd, sd), ROUNDS, t);
  }

  /** Once a round changes nothing, no later round does. */
  lemma {:induction false} StaysSettled(f: Transcript -> Transcript, k: nat, n: nat)
    requires k <= n
    requires f(Iterate(f, k)) == Iterate(f, k)
    ensures Iterate(f, n) == Iterate(f, k)
    decreases n - k
  {
    if k < n {
      StaysSettled(f, k + 1, n);
    }
  }

  function FlagsOf(segs: seq<Segment>): (fs: seq<int>)
    ensures |fs| == |segs|
    ensures forall i :: 0 <= i < |segs| ==> fs[i] == segs[i].hdrFlags
  {
    if segs == [] then [] else [segs[0].hdrFlags] + FlagsOf(segs[1..])
  }

  /** The client accepts the SYN-ACK only if the SYN's stale checksum happens to equal its fresh one. */
  predicate HandshakeAccepted(s0: Segment, cd: Client.Draws) {
    ComputeChecksum(Client.Syn(s0, cd.synSeq)) == ComputeChecksum(s0)
  }

  // The segments of one connection, in the order they are built.

  function SynSeg(s0: Segment, cd: Client.Draws): Segment {
    Client.Syn(s0, cd.synSeq)
  }

  function SynAckSeg(s0: Segment, cd: Client.Draws, sd: Server.Draws): Segment {
    var syn := SynSeg(s0, cd);
    Server.SynAck(syn, syn.seqNum, sd.synAckSeq)
  }

  function AckSeg(s0: Segment, cd: Client.Draws, sd: Server.Draws): Segment {
    var syn := SynSeg(s0, cd);
    Client.Ack(SynAckSeg(s0, cd, sd), syn.seqNum, syn.seqNum)
  }

  /** The client's FIN after a completed handshake. */
  function FinSeg(s0: Segment, cd: Client.Draws, sd: Server.Draws): Segment {
    Client.CliFin(AckSeg(s0, cd, sd), cd.finSeq)
  }

  /** The client's FIN when it skipped the handshake ACK: built in the SYN-ACK it read. */
  function EarlyFinSeg(s0: Segment, cd: Client.Draws, sd: Server.Draws): Segment {
    Client.CliFin(SynAckSeg(s0, cd, sd), cd.finSeq)
  }

  function ServerAckSeg(s0: Segment, cd: Client.Draws, sd: Server.Draws): Segment {
    var fin := FinSeg(s0, cd, sd);
    Server.Ack(fin, sd.finSeq, fin.seqNum)
  }

  function ServerFinSeg(s0: Segment, cd: Client.Draws, sd: Server.Draws): Segment {
    var fin := FinSeg(s0, cd, sd);
    Server.SvrFin(ServerAckSeg(s0, cd, sd), sd.finSeq, fin.seqNum)
  }

  function ClosingAckSeg(s0: Segment, cd: Client.Draws, sd: Server.Draws): Segment {
    var fin := FinSeg(s0, cd, sd);
    Client.CliFinAck(ServerFinSeg(s0, cd, sd), ServerAckSeg(s0, cd, sd).seqNum, fin.seqNum)
  }

  /** The client accepts the server's FIN only if its checksum equals that of the client's own FIN. */
  predicate TeardownAccepted(s0: Segment, cd: Client.Draws, sd: Server.Draws) {
    ServerFinSeg(s0, cd, sd).cksum == FinSeg(s0, cd, sd).cksum
  }

  // The transcripts the rounds pass through.

  function AfterSyn(s0: Segment, cd: Client.Draws): Transcript {
    Transcript([SynSeg(s0, cd)], [])
  }

  function AfterSynAck(s0: Segment, cd: Client.Draws, sd: Server.Draws): Transcript {
    Transcript([SynSeg(s0, cd)], [SynAckSeg(s0, cd, sd)])
  }

  function Stalled(s0: Segment, cd: Client.Draws, sd: Server.Draws): Transcript {
    Transcript([SynSeg(s0, cd), EarlyFinSeg(s0, cd, sd)], [SynAckSeg(s0, cd, sd)])
  }

  function AfterFin(s0: Segment, cd: Client.Draws, sd: Server.Draws): Transcript {
    Transcript([SynSeg(s0, cd), AckSeg(s0, cd, sd), FinSeg(s0, cd, sd)], [SynAckSeg(s0, cd, sd)])
  }

  function AfterServerFin(s0: Segment, cd: Client.Draws, sd: Server.Draws): Transcript {
    Transcript([SynSeg(s0, cd), AckSeg(s0, cd, sd), FinSeg(s0, cd, sd)],
               [SynAckSeg(s0, cd, sd), ServerAckSeg(s0, cd, sd), ServerFinSeg(s0, cd, sd)])
  }

  function Closed(s0: Segment, cd: Client.Draws, sd: Server.Draws): Transcript {
    Transcript([SynSeg(s0, cd), AckSeg(s0, cd, sd), FinSeg(s0, cd, sd), ClosingAckSeg(s0, cd, sd)],
               [SynAckSeg(s0, cd, sd), ServerAckSeg(s0, cd, sd), ServerFinSeg(s0, cd, sd)])
  }

  lemma RoundOne(s0: Segment, cd: Client.Draws, sd: Server.Draws)
    ensures Step(s0, cd, sd, Transcript([], [])) == AfterSyn(s0, cd)
  {
  }

  lemma RoundTwo(s0: Segment, cd: Client.Draws, sd: Server.Draws)
    ensures Step(s0, cd, sd, AfterSyn(s0, cd)) == AfterSynAck(s0, cd, sd)
  {
  }

  lemma RoundThree(s0: Segment, cd: Client.Draws, sd: Server.Draws)
    ensures HandshakeAccepted(s0, cd) ==> Step(s0, cd, sd, AfterSynAck(s0, cd, sd)) == AfterFin(s0, cd, sd)
    ensures !HandshakeAccepted(s0, cd) ==> Step(s0, cd, sd, AfterSynAck(s0, cd, sd)) == Stalled(s0, cd, sd)
  {
    var syn := SynSeg(s0, cd);
    var synAck := SynAckSeg(s0, cd, sd);
    assert Server.Run(sd, [syn]) == [synAck];
    assert Client.AcceptsSynAck(synAck, syn.cksum) <==> HandshakeAccepted(s0, cd);
    if HandshakeAccepted(s0, cd) {
      assert Client.Run(s0, cd, [synAck]) == [syn, AckSeg(s0, cd, sd), FinSeg(s0, cd, sd)];
    } else {
      assert Client.Run(s0, cd, [synAck]) == [syn, EarlyFinSeg(s0, cd, sd)];
    }
  }

  lemma StalledIsFixed(s0: Segment, cd: Client.Draws, sd: Server.Draws)
    requires !HandshakeAccepted(s0, cd)
    ensures Step(s0, cd, sd, Stalled(s0, cd, sd)) == Stalled(s0, cd, sd)
  {
  }

  lemma RoundFour(s0: Segment, cd: Client.Draws, sd: Server.Draws)
    requires HandshakeAccepted(s0, cd)
    ensures Step(s0, cd, sd, AfterFin(s0, cd, sd)) == AfterServerFin(s0, cd, sd)
  {
    Server.TeardownIff(sd, AfterFin(s0, cd, sd).client);
  }

  lemma RoundFive(s0: Segment, cd: Client.Draws, sd: Server.Draws)
    requires HandshakeAccepted(s0, cd)
    ensures TeardownAccepted(s0, cd, sd) ==> Step(s0, cd, sd, AfterServerFin(s0, cd, sd)) == Closed(s0, cd, sd)
    ensures !TeardownAccepted(s0, cd, sd) ==> Step(s0, cd, sd, AfterServerFin(s0, cd, sd)) == AfterServerFin(s0, cd, sd)
  {
    RoundFour(s0, cd, sd);
  }

  lemma ClosedIsFixed(s0: Segment, cd: Client.Draws, sd: Server.Draws)
    requires HandshakeAccepted(s0, cd) && TeardownAccepted(s0, cd, sd)
    ensures Step(s0, cd, sd, Closed(s0, cd, sd)) == Closed(s0, cd, sd)
  {
    RoundFour(s0, cd, sd);
  }

  /**
   When both checksum comparisons on the client side succeed, the whole
   exchange happens: client SYN, server SYN-ACK, client ACK, client FIN,
   server ACK, server FIN, client ACK. The handshake ACK echoes the client's
   initial sequence number plus one twice; the closing ACK acknowledges the
   server's teardown sequence number plus one.
   */
  lemma {:induction false} FullExchange(s0: Segment, cd: Client.Draws, sd: Server.Draws)
    requires HandshakeAccepted(s0, cd) && TeardownAccepted(s0, cd, sd)
    ensures var t := Settle(s0, cd, sd);
      FlagsOf(t.client) == [SYN, ACK, FIN, ACK] && FlagsOf(t.server) == [SYN_ACK, ACK, FIN]
    ensures var t := Settle(s0, cd, sd);
      && |t.client| == 4 && |t.server| == 3
      && t.server[0].ackNum == Inc32(cd.synSeq)
      && t.client[1].seqNum == Inc32(cd.synSeq) && t.client[1].ackNum == Inc32(cd.synSeq)
      && t.server[1].ackNum == Inc32(cd.finSeq) && t.server[2].ackNum == Inc32(cd.finSeq)
      && t.client[3].seqNum == Inc32(cd.finSeq) && t.client[3].ackNum == Inc32(sd.finSeq)
  {
    var f := Round(s0, cd, sd);
    RoundOne(s0, cd, sd);
    RoundTwo(s0, cd, sd);
    RoundThree(s0, cd, sd);
    RoundFour(s0, cd, sd);
    RoundFive(s0, cd, sd);
    ClosedIsFixed(s0, cd, sd);
    assert Iterate(f, 1) == AfterSyn(s0, cd);
    assert Iterate(f, 2) == AfterSynAck(s0, cd, sd);
    assert Iterate(f, 3) == AfterFin(s0, cd, sd);
    assert Iterate(f, 4) == AfterServerFin(s0, cd, sd);
    assert Iterate(f, 5) == Closed(s0, cd, sd);
    StaysSettled(f, 5, ROUNDS);
    assert Settle(s0, cd, sd) == Closed(s0, cd, sd);
  }

  /**
   When the SYN-ACK check fails, the client skips its ACK and sends its FIN
   straight away; the server takes that FIN for the handshake ACK and then
   waits for a FIN that never comes, while the client waits for an ACK.
   Both stop after client SYN, server SYN-ACK, client FIN.
   */
  lemma {:induction false} HandshakeStalls(s0: Segment, cd: Client.Draws, sd: Server.Draws)
    requires !HandshakeAccepted(s0, cd)
    ensures var t := Settle(s0, cd, sd);
      FlagsOf(t.client) == [SYN, FIN] && FlagsOf(t.server) == [SYN_ACK]
  {
    var f := Round(s0, cd, sd);
    RoundOne(s0, cd, sd);
    RoundTwo(s0, cd, sd);
    RoundThree(s0, cd, sd);
    StalledIsFixed(s0, cd, sd);
    assert Iterate(f, 1) == AfterSyn(s0, cd);
    assert Iterate(f, 2) == AfterSynAck(s0, cd, sd);
    assert Iterate(f, 3) == Stalled(s0, cd, sd);
    StaysSettled(f, 3, ROUNDS);
    assert Settle(s0, cd, sd) == Stalled(s0, cd, sd);
  }

  /**
   When the handshake goes through but the server's FIN fails the client's
   checksum comparison, six segments are exchanged and the closing ACK is
   never written.
   */
  lemma {:induction false} ClosingAckWithheld(s0: Segment, cd: Client.Draws, sd: Server.Draws)
    requires HandshakeAccepted(s0, cd) && !TeardownAccepted(s0, cd, sd)
    ensures var t := Settle(s0, cd, sd);
      FlagsOf(t.client) == [SYN, ACK, FIN] && FlagsOf(t.server) == [SYN_ACK, ACK, FIN]
  {
    var f := Round(s0, cd, sd);
    RoundOne(s0, cd, sd);
    RoundTwo(s0, cd, sd);
    RoundThree(s0, cd, sd);
    RoundFour(s0, cd, sd);
    RoundFive(s0, cd, sd);
    assert Iterate(f, 1) == AfterSyn(s0, cd);
    assert Iterate(f, 2) == AfterSynAck(s0, cd, sd);
    assert Iterate(f, 3) == AfterFin(s0, cd, sd);
    assert Iterate(f, 4) == AfterServerFin(s0, cd, sd);
    StaysSettled(f, 4, ROUNDS);
    assert Settle(s0, cd, sd) == AfterServerFin(s0, cd, sd);
  }

  /** The full seven-segment exchange happens if and only if both client-side checks pass. */
  lemma CompleteIff(s0: Segment, cd: Client.Draws, sd: Server.Draws)
    ensures |Settle(s0, cd, sd).client| == 4 <==> HandshakeAccepted(s0, cd) && TeardownAccepted(s0, cd, sd)
  {
    if !HandshakeAccepted(s0, cd) {
      HandshakeStalls(s0, cd, sd);
    } else if !TeardownAccepted(s0, cd, sd) {
      ClosingAckWithheld(s0, cd, sd);
    } else {
      FullExchange(s0, cd, sd);
    }
  }

  /**
   A FIN built by `cli_fin` and delivered unchanged always passes the
   server's FIN check, so the server answers it with ACK then FIN.
   */
  lemma ServerAcceptsClientFin(sd: Server.Draws, inbox: seq<Segment>, s: Segment, draw: uint32)
    requires |inbox| >= 3 && inbox[2] == Client.CliFin(s, draw)
    ensures var out := Server.Run(sd, inbox);
      var k := Server.SynAcks(inbox);
      |out| == k + 2 && out[k].hdrFlags == ACK && out[k + 1].hdrFlags == FIN
  {
    Server.TeardownIff(sd, inbox);
  }

  /**
   Both outcomes of the handshake check occur with draws any `rand()` can
   return: built in `Client.Uninitialised`, the SYN drawn 0 carries its own
   checksum and its SYN-ACK is accepted, while the SYN drawn 1 does not and
   its SYN-ACK is refused.
   */
  lemma HandshakeCanGoEitherWay(finSeq: uint32)
    ensures HandshakeAccepted(Client.Uninitialised, Client.Draws(0, finSeq))
    ensures !HandshakeAccepted(Client.Uninitialised, Client.Draws(1, finSeq))
  {
    var s0 := Client.Uninitialised;
    assert Lo16(0xFFFF_E06D) == 0xE06D && Hi16(0xFFFF_E06D) == 0xFFFF;
    assert FieldSum(s0) == 0x1_E06C;
    ChecksumIsSecondCarry(s0);
    var good := Client.Syn(s0, 0);
    assert Lo16(0) == 0 && Hi16(0) == 0;
    assert FieldSum(good) == PORT + PORT + 0x1_E06C + SYN == 0x1_FFFE;
    ChecksumIsSecondCarry(good);
    Client.SynChecksumCanBeStale();
  }

  /** The part of the prefix sum that `syn` leaves alone: the header-length and reserved words. */
  function KeptSum(s0: Segment): nat {
    Lo16(s0.headLength) + Hi16(s0.headLength) + Lo16(s0.reserved) + Hi16(s0.reserved)
  }

  /**
   With both draws 0 on the client side, the client's FIN keeps only the
   header-length and reserved words of the initial record, has sequence
   number 0 and carries its own checksum.
   */
  lemma DrawsZeroFin(s0: Segment, sd: Server.Draws)
    ensures var fin := FinSeg(s0, Client.Draws(0, 0), sd);
      && fin.seqNum == 0 && Valid(fin)
      && FieldSum(fin) == PORT + PORT + KeptSum(s0) + FIN
  {
    var cd := Client.Draws(0, 0);
    var syn := SynSeg(s0, cd);
    var synAck := SynAckSeg(s0, cd, sd);
    assert synAck.src == PORT && synAck.dest == PORT && synAck.headLength == s0.headLength
        && synAck.reserved == s0.reserved && synAck.rec == 0 by {
      assert AgreeExcept(syn, synAck, {SeqNum, AckNum, Flags, Cksum});
      assert AgreeExcept(s0, syn, {SrcPort, DestPort, SeqNum, AckNum, Flags, Window, Cksum, UrgPtr, Options});
    }
    var ack := AckSeg(s0, cd, sd);
    assert ack.src == PORT && ack.dest == PORT && ack.headLength == s0.headLength
        && ack.reserved == s0.reserved && ack.rec == 0 by {
      assert AgreeExcept(synAck, ack, {SeqNum, AckNum, Flags, Cksum});
    }
    var fin := FinSeg(s0, cd, sd);
    assert fin.src == PORT && fin.dest == PORT && fin.headLength == s0.headLength
        && fin.reserved == s0.reserved && fin.rec == 0 by {
      assert AgreeExcept(ack, fin, {SeqNum, AckNum, Flags, Cksum});
    }
    assert Lo16(0) == 0 && Hi16(0) == 0;
  }

  /**
   With the same client side, the server's FIN carries the server's second
   draw as sequence number and 1 as acknowledgment, and its own checksum.
   */
  lemma DrawsZeroServerFin(s0: Segment, sd: Server.Draws)
    ensures var f := ServerFinSeg(s0, Client.Draws(0, 0), sd);
      && Valid(f)
      && FieldSum(f) == PORT + PORT + Lo16(sd.finSeq) + Hi16(sd.finSeq) + 1 + KeptSum(s0) + FIN
  {
    DrawsZeroFin(s0, sd);
    var fin := FinSeg(s0, Client.Draws(0, 0), sd);
    var f := ServerFinSeg(s0, Client.Draws(0, 0), sd);
    assert AgreeExcept(fin, f, {SeqNum, AckNum, Flags, Cksum});
    assert f.ackNum == 1 && Lo16(1) == 1 && Hi16(1) == 0;
  }

  /**
   Another record `main` might find: its source-port word holds 0x1F92 and
   its header-length word 0xFFFF_E06E, every other field 0.
   */
  const Skewed := Segment(0x1F92, 0, 0, 0, 0xFFFF_E06E, 0, 0, 0, 0, 0, 0)

  /** From `Client.Uninitialised` with every draw 0 the server's FIN passes the client's check. */
  lemma UninitialisedTeardownAccepted()
    ensures TeardownAccepted(Client.Uninitialised, Client.Draws(0, 0), Server.Draws(0, 0))
  {
    var s0 := Client.Uninitialised;
    var cd := Client.Draws(0, 0);
    var sd := Server.Draws(0, 0);
    assert KeptSum(s0) == 0x1_E06C by {
      assert Lo16(0xFFFF_E06D) == 0xE06D && Hi16(0xFFFF_E06D) == 0xFFFF;
    }
    assert Lo16(0) == 0 && Hi16(0) == 0;
    DrawsZeroFin(s0, sd);
    ChecksumIsSecondCarry(FinSeg(s0, cd, sd));
    DrawsZeroServerFin(s0, sd);
    ChecksumIsSecondCarry(ServerFinSeg(s0, cd, sd));
  }

  /** From `Skewed` with every draw 0 the record and its SYN both get 0xFFFE, so the handshake passes. */
  lemma SkewedHandshakeAccepted()
    ensures HandshakeAccepted(Skewed, Client.Draws(0, 0))
  {
    assert KeptSum(Skewed) == 0x1_E06D by {
      assert Lo16(0xFFFF_E06E) == 0xE06E && Hi16(0xFFFF_E06E) == 0xFFFF;
    }
    assert Lo16(0) == 0 && Hi16(0) == 0;
    assert FieldSum(Skewed) == 0x1F92 + 0x1_E06D;
    ChecksumIsSecondCarry(Skewed);
    var syn := Client.Syn(Skewed, 0);
    assert FieldSum(syn) == PORT + PORT + 0x1_E06D + SYN;
    ChecksumIsSecondCarry(syn);
  }

  /** From `Skewed` with every draw 0 the server's FIN gets 0xFFFE against the client FIN's 0xFFFF. */
  lemma SkewedTeardownRefused()
    ensures !TeardownAccepted(Skewed, Client.Draws(0, 0), Server.Draws(0, 0))
  {
    var cd := Client.Draws(0, 0);
    var sd := Server.Draws(0, 0);
    assert KeptSum(Skewed) == 0x1_E06D by {
      assert Lo16(0xFFFF_E06E) == 0xE06E && Hi16(0xFFFF_E06E) == 0xFFFF;
    }
    assert Lo16(0) == 0 && Hi16(0) == 0;
    DrawsZeroFin(Skewed, sd);
    ChecksumIsSecondCarry(FinSeg(Skewed, cd, sd));
    DrawsZeroServerFin(Skewed, sd);
    ChecksumIsSecondCarry(ServerFinSeg(Skewed, cd, sd));
  }

  /**
   Both outcomes of the teardown check occur after an accepted handshake,
   with the same draws on both sides (both programs call an unseeded
   `rand()` in the same order, so their draws agree): every draw is 0. From
   `Client.Uninitialised` the whole exchange happens; from `Skewed` the
   handshake passes but the closing ACK is withheld.
   */
  lemma TeardownCanGoEitherWay()
    ensures HandshakeAccepted(Client.Uninitialised, Client.Draws(0, 0))
    ensures TeardownAccepted(Client.Uninitialised, Client.Draws(0, 0), Server.Draws(0, 0))
    ensures HandshakeAccepted(Skewed, Client.Draws(0, 0))
    ensures !TeardownAccepted(Skewed, Client.Draws(0, 0), Server.Draws(0, 0))
  {
    HandshakeCanGoEitherWay(0);
    UninitialisedTeardownAccepted();
    SkewedHandshakeAccepted();
    SkewedTeardownRefused();
  }
}
