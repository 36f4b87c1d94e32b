/**
 The initiator (client): its segment builders, each of which overwrites some
 fields of the record it is handed, and its run from connection to close as
 a function from the segments it reads to the segments it writes.
 */
module Client {
  import opened Words
  import opened Header
  import opened Checksum

  /** The two `rand()` results the client draws, in call order. */
  datatype Draws = Draws(synSeq: uint32, finSeq: uint32)

  /**
   `syn`: stamps ports, a fresh sequence number and the SYN flag, but the
   checksum it stores is that of the record as it was BEFORE the update.
   Header length and reserved words are left as they were.
   */
  function Syn(s: Segment, draw: uint32): (r: Segment)
    ensures r.src == PORT && r.dest == PORT
    ensures r.seqNum == draw && r.ackNum == 0 && r.hdrFlags == SYN
    ensures r.rec == 0 && r.ptr == 0 && r.opt == 0
    ensures AgreeExcept(s, r, {SrcPort, DestPort, SeqNum, AckNum, Flags, Window, Cksum, UrgPtr, Options})
    ensures r.cksum == ComputeChecksum(s)
  {
    var newChecksum := ComputeChecksum(s);
    s.(src := PORT, dest := PORT, seqNum := draw, ackNum := 0, hdrFlags := SYN,
       rec := 0, cksum := newChecksum, ptr := 0, opt := 0)
  }

  /**
   `ack`: the handshake ACK. Sequence number `clientSeq + 1`, acknowledgment
   `serverSeq + 1` (both wrapping), ACK flag, then the checksum of the
   updated record; every other field is carried over.
   */
  function Ack(s: Segment, serverSeq: uint32, clientSeq: uint32): (r: Segment)
    ensures r.seqNum == Inc32(clientSeq) && r.ackNum == Inc32(serverSeq) && r.hdrFlags == ACK
    ensures AgreeExcept(s, r, {SeqNum, AckNum, Flags, Cksum})
    ensures Valid(r)
  {
    var t := s.(seqNum := Inc32(clientSeq), ackNum := Inc32(serverSeq), hdrFlags := ACK);
    ChecksumIgnoresTail(t, ComputeChecksum(t), t.ptr, t.opt);
    t.(cksum := ComputeChecksum(t))
  }

  /** `cli_fin`: a fresh sequence number, acknowledgment 0, FIN flag, checksum of the result. */
  function CliFin(s: Segment, draw: uint32): (r: Segment)
    ensures r.seqNum == draw && r.ackNum == 0 && r.hdrFlags == FIN
    ensures AgreeExcept(s, r, {SeqNum, AckNum, Flags, Cksum})
    ensures Valid(r)
  {
    var t := s.(seqNum := draw, ackNum := 0, hdrFlags := FIN);
    ChecksumIgnoresTail(t, ComputeChecksum(t), t.ptr, t.opt);
    t.(cksum := ComputeChecksum(t))
  }

  /** `cli_fin_ack`: the closing ACK; the same assignments as `ack`. */
  function CliFinAck(s: Segment, serverSeq: uint32, clientSeq: uint32): (r: Segment)
    ensures r.seqNum == Inc32(clientSeq) && r.ackNum == Inc32(serverSeq) && r.hdrFlags == ACK
    ensures AgreeExcept(s, r, {SeqNum, AckNum, Flags, Cksum})
    ensures Valid(r)
  {
    Ack(s, serverSeq, clientSeq)
  }

  /** The test on the first segment read: SYN-ACK flags and the checksum the SYN carried. */
  predicate AcceptsSynAck(r: Segment, initialChecksum: uint16) {
    r.hdrFlags == SYN_ACK && r.cksum == initialChecksum
  }

  /** The test on the third segment read: FIN flag and the checksum of the client's own FIN. */
  predicate AcceptsFin(r: Segment, newChecksum: uint16) {
    r.cksum == newChecksum && r.hdrFlags == FIN
  }

  /**
   The segments the client writes, in order, when `inbox` holds the segments
   it reads, in order. `s0` is the record the SYN is built in (the C code
   never initialises it). A read past the end of `inbox` blocks for good, so
   nothing after it is written. The segment read second is only inspected
   for display; its sequence number is kept for the closing ACK.
   */
  function Run(s0: Segment, draws: Draws, inbox: seq<Segment>): (out: seq<Segment>)
    ensures 1 <= |out| <= 4
    ensures out[0] == Syn(s0, draws.synSeq)
    ensures |out| == 1 <==> |inbox| == 0
  {
    var syn := Syn(s0, draws.synSeq);
    var initialChecksum := syn.cksum;
    var initSeq := syn.seqNum;
    var serverSeq := syn.seqNum;
    if |inbox| == 0 then [syn]
    else
      var synAck := inbox[0];
      var handshake :=
        if AcceptsSynAck(synAck, initialChecksum) then [Ack(synAck, serverSeq, initSeq)] else [];
      var fin := CliFin(if handshake == [] then synAck else handshake[0], draws.finSeq);
      var finClientSeq := fin.seqNum;
      var newChecksum := ComputeChecksum(fin);
      var opening := [syn] + handshake + [fin];
      if |inbox| < 3 then opening
      else
        var finServerSeq := inbox[1].seqNum;
        var serverFin := inbox[2];
        if AcceptsFin(serverFin, newChecksum)
        then opening + [CliFinAck(serverFin, finServerSeq, finClientSeq)]
        else opening
  }

  /** 1 when the client answers the first segment read with a handshake ACK, else 0. */
  function HandshakeAcks(s0: Segment, inbox: seq<Segment>): nat
    requires |inbox| >= 1
  {
    if AcceptsSynAck(inbox[0], ComputeChecksum(s0)) then 1 else 0
  }

  /**
   The handshake ACK is written exactly when the first segment read has the
   SYN-ACK flags and carries the checksum the SYN carried. It echoes the
   client's own initial sequence number plus one in BOTH its sequence and
   acknowledgment numbers, because the "server" sequence number is copied
   from the client's SYN before anything is read.
   */
  lemma HandshakeAckIff(s0: Segment, draws: Draws, inbox: seq<Segment>)
    requires |inbox| >= 1
    ensures var out := Run(s0, draws, inbox);
      (out[1].hdrFlags == ACK <==> AcceptsSynAck(inbox[0], out[0].cksum))
    ensures var out := Run(s0, draws, inbox);
      out[1].hdrFlags == ACK ==>
        && out[1].seqNum == Inc32(draws.synSeq)
        && out[1].ackNum == Inc32(draws.synSeq)
        && Valid(out[1])
        && AgreeExcept(inbox[0], out[1], {SeqNum, AckNum, Flags, Cksum})
  {
  }

  /**
   Once the first segment has been read the client always writes its FIN,
   right after the SYN or after the handshake ACK. The FIN carries the
   client's second draw, acknowledgment 0 and a valid checksum, so the
   checksum the client later compares against equals the FIN's own.
   */
  lemma FinAlwaysSent(s0: Segment, draws: Draws, inbox: seq<Segment>)
    requires |inbox| >= 1
    ensures var out := Run(s0, draws, inbox);
      var k := 1 + HandshakeAcks(s0, inbox);
      && k < |out|
      && out[k].hdrFlags == FIN
      && out[k].seqNum == draws.finSeq
      && out[k].ackNum == 0
      && Valid(out[k])
  {
  }

  /**
   The closing ACK is written exactly when a third segment arrives with the
   FIN flag and the checksum of the client's FIN. It acknowledges the
   sequence number of the SECOND segment read (the server's ACK), not of
   the FIN it answers, and its sequence number is the FIN's plus one.
   */
  lemma ClosingAckIff(s0: Segment, draws: Draws, inbox: seq<Segment>)
    requires |inbox| >= 3
    ensures var out := Run(s0, draws, inbox);
      var k := 1 + HandshakeAcks(s0, inbox);
      (|out| == k + 2 <==> AcceptsFin(inbox[2], out[k].cksum))
    ensures var out := Run(s0, draws, inbox);
      var k := 1 + HandshakeAcks(s0, inbox);
      |out| == k + 2 ==>
        && out[k + 1].hdrFlags == ACK
        && out[k + 1].seqNum == Inc32(draws.finSeq)
        && out[k + 1].ackNum == Inc32(inbox[1].seqNum)
        && Valid(out[k + 1])
  {
    FinAlwaysSent(s0, draws, inbox);
  }

  /** Before the third segment is read the client writes at most SYN, ACK and FIN. */
  lemma NoClosingAckBeforeThirdRead(s0: Segment, draws: Draws, inbox: seq<Segment>)
    requires 1 <= |inbox| < 3
    ensures |Run(s0, draws, inbox)| == 2 + HandshakeAcks(s0, inbox)
  {
  }

  /**
   Reading more never takes back a write: the segments written for a prefix
   of the input are a prefix of those written for the whole input.
   */
  lemma RunMonotone(s0: Segment, draws: Draws, a: seq<Segment>, b: seq<Segment>)
    requires IsPrefix(a, b)
    ensures IsPrefix(Run(s0, draws, a), Run(s0, draws, b))
  {
    if |a| >= 1 {
      assert a[0] == b[0];
    }
    if |a| >= 3 {
      assert a[..3] == b[..3];
      assert a[1] == b[1] && a[2] == b[2];
    }
  }

  /**
   A record as `main` might find it: `tcp_seg` is never initialised, and
   here its header-length word holds 0xFFFF_E06D while every other field is 0.
   `syn` leaves that word alone, so it enters every checksum of the connection.
   */
  const Uninitialised := Segment(0, 0, 0, 0, 0xFFFF_E06D, 0, 0, 0, 0, 0, 0)

  /**
   The SYN need not carry its own checksum: built in `Uninitialised` with
   the draw 1 (which any `rand()` can return, since RAND_MAX is at least
   32767), the SYN's prefix sums to 0x1_FFFF, whose second fold carries, so
   its checksum is 0xFFFE while the stored one, taken before the update, is
   0xFFFF.
   */
  lemma SynChecksumCanBeStale()
    ensures var r := Syn(Uninitialised, 1);
      r.cksum == 0xFFFF && ComputeChecksum(r) == 0xFFFE && !Valid(r)
  {
    var r := Syn(Uninitialised, 1);
    assert Lo16(0xFFFF_E06D) == 0xE06D && Hi16(0xFFFF_E06D) == 0xFFFF;
    assert FieldSum(Uninitialised) == 0x1_E06C;
    ChecksumIsSecondCarry(Uninitialised);
    assert Lo16(1) == 1 && Hi16(1) == 0;
    assert FieldSum(r) == PORT + PORT + 1 + 0x1_E06C + SYN == 0x1_FFFF;
    ChecksumIsSecondCarry(r);
  }
}
