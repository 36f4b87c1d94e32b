/**
 The responder (server): its segment builders and its handling of one
 accepted connection as a function from the segments it reads to the
 segments it writes.
 */
module Server {
  import opened Words
  import opened Header
  import opened Checksum

  /** The two `rand()` results the server draws, in call order. */
  datatype Draws = Draws(synAckSeq: uint32, finSeq: uint32)

  /**
   `syn_ack`: the checksum stored is that of the record as RECEIVED; then a
   fresh sequence number, acknowledgment `clientSeq + 1` and the SYN-ACK
   flags. Every other field is carried over.
   */
  function SynAck(s: Segment, clientSeq: uint32, draw: uint32): (r: Segment)
    ensures r.seqNum == draw && r.ackNum == Inc32(clientSeq) && r.hdrFlags == SYN_ACK
    ensures AgreeExcept(s, r, {SeqNum, AckNum, Flags, Cksum})
    ensures r.cksum == ComputeChecksum(s)
  {
    var newChecksum := ComputeChecksum(s);
    s.(seqNum := draw, ackNum := Inc32(clientSeq), hdrFlags := SYN_ACK, cksum := newChecksum)
  }

  /**
   `ack` (server variant): sequence number `serverSeq` as given, no increment;
   acknowledgment `clientSeq + 1`. The checksum is taken while the flags
   still hold their previous value, and only then is the ACK flag set.
   */
  function Ack(s: Segment, serverSeq: uint32, clientSeq: uint32): (r: Segment)
    ensures r.seqNum == serverSeq && r.ackNum == Inc32(clientSeq) && r.hdrFlags == ACK
    ensures AgreeExcept(s, r, {SeqNum, AckNum, Flags, Cksum})
    ensures r.cksum == ComputeChecksum(r.(hdrFlags := s.hdrFlags))
  {
    var t := s.(seqNum := serverSeq, ackNum := Inc32(clientSeq));
    var u := t.(cksum := ComputeChecksum(t));
    ChecksumIgnoresTail(t, u.cksum, t.ptr, t.opt);
    u.(hdrFlags := ACK)
  }

  /** `svr_fin`: sequence number `serverSeq`, acknowledgment `clientSeq + 1`, FIN flag, checksum of the result. */
  function SvrFin(s: Segment, serverSeq: uint32, clientSeq: uint32): (r: Segment)
    ensures r.seqNum == serverSeq && r.ackNum == Inc32(clientSeq) && r.hdrFlags == FIN
    ensures AgreeExcept(s, r, {SeqNum, AckNum, Flags, Cksum})
    ensures Valid(r)
  {
    var t := s.(seqNum := serverSeq, ackNum := Inc32(clientSeq), hdrFlags := FIN);
    ChecksumIgnoresTail(t, ComputeChecksum(t), t.ptr, t.opt);
    t.(cksum := ComputeChecksum(t))
  }

  /**
   The segments the server writes, in order, for one connection whose
   incoming segments are `inbox`. A read past the end of `inbox` blocks for
   good. The second and fourth segments read are only inspected for display.
   */
  function Run(draws: Draws, inbox: seq<Segment>): (out: seq<Segment>)
    ensures |out| <= 3
    ensures |inbox| == 0 ==> out == []
  {
    if |inbox| == 0 then []
    else
      var syn := inbox[0];
      var checksum1 := ComputeChecksum(syn);
      var synCheck := syn.hdrFlags;
      var clientSeq := syn.seqNum;
      var synAck := SynAck(syn, clientSeq, draws.synAckSeq);
      var opening := if checksum1 == synAck.cksum && synCheck == SYN then [synAck] else [];
      if |inbox| < 3 then opening
      else
        var fin := inbox[2];
        var checksum2 := ComputeChecksum(fin);
        var finClientSeq := fin.seqNum;
        var serverSeq := draws.finSeq;
        if fin.cksum == checksum2 && fin.hdrFlags == FIN then
          var ack := Ack(fin, serverSeq, finClientSeq);
          opening + [ack, SvrFin(ack, serverSeq, finClientSeq)]
        else opening
  }

  /** 1 when the server answers the first segment read with a SYN-ACK, else 0. */
  function SynAcks(inbox: seq<Segment>): nat
    requires |inbox| >= 1
  {
    if inbox[0].hdrFlags == SYN then 1 else 0
  }

  /**
   The checksum comparison before the SYN-ACK is written always holds, so
   the SYN-ACK is written exactly when the first segment read carries the
   SYN flag. It acknowledges that segment's sequence number plus one.
   */
  lemma SynAckIff(draws: Draws, inbox: seq<Segment>)
    requires |inbox| >= 1
    ensures var out := Run(draws, inbox);
      (|out| >= 1 && out[0].hdrFlags == SYN_ACK) <==> inbox[0].hdrFlags == SYN
    ensures var out := Run(draws, inbox);
      inbox[0].hdrFlags == SYN ==>
        && out[0] == SynAck(inbox[0], inbox[0].seqNum, draws.synAckSeq)
        && out[0].seqNum == draws.synAckSeq
        && out[0].ackNum == Inc32(inbox[0].seqNum)
        && out[0].cksum == ComputeChecksum(inbox[0])
  {
  }

  /**
   The ACK and the FIN are written, in that order and together, exactly when
   the third segment read carries its own checksum and the FIN flag. Both
   carry the server's second draw as sequence number and acknowledge the
   client's FIN sequence number plus one.
   */
  lemma TeardownIff(draws: Draws, inbox: seq<Segment>)
    requires |inbox| >= 3
    ensures var out := Run(draws, inbox);
      (|out| == SynAcks(inbox) + 2 <==> Valid(inbox[2]) && inbox[2].hdrFlags == FIN)
    ensures var out := Run(draws, inbox);
      var k := SynAcks(inbox);
      |out| == k + 2 ==>
        && out[k].hdrFlags == ACK && out[k + 1].hdrFlags == FIN
        && out[k].seqNum == out[k + 1].seqNum == draws.finSeq
        && out[k].ackNum == out[k + 1].ackNum == Inc32(inbox[2].seqNum)
        && Valid(out[k + 1])
  {
  }

  /**
   The second and fourth reads never lead to a write: what the server writes
   depends neither on the segment read second nor on anything after the
   third.
   */
  lemma IgnoredReads(draws: Draws, inbox: seq<Segment>, x: Segment)
    requires |inbox| >= 2
    ensures Run(draws, inbox[1 := x]) == Run(draws, inbox)
    ensures |inbox| >= 3 ==> Run(draws, inbox[..3]) == Run(draws, inbox)
  {
  }

  /**
   Applied right after `ack` with the same arguments, `svr_fin` keeps the
   sequence and acknowledgment numbers, changes only flags and checksum, and
   leaves a segment whose checksum is valid.
   */
  lemma AckThenFin(s: Segment, serverSeq: uint32, clientSeq: uint32)
    ensures var a := Ack(s, serverSeq, clientSeq);
      var f := SvrFin(a, serverSeq, clientSeq);
      && f.seqNum == a.seqNum && f.ackNum == a.ackNum
      && AgreeExcept(a, f, {Flags, Cksum})
      && AgreeExcept(s, f, {SeqNum, AckNum, Flags, Cksum})
  {
  }

  /** Reading more never takes back a write. */
  lemma RunMonotone(draws: Draws, a: seq<Segment>, b: seq<Segment>)
    requires IsPrefix(a, b)
    ensures IsPrefix(Run(draws, a), Run(draws, b))
  {
    if |a| >= 1 {
      assert a[0] == b[0];
    }
    if |a| >= 3 {
      assert a[..3] == b[..3];
      assert a[2] == b[2];
    }
  }

  /**
   Because the ACK's checksum is taken before its flags change from FIN to
   ACK, the ACK need not carry its own checksum. Here the FIN read carries a
   header-length word of 0xFFFF_E05F and the draw is 0: the prefix sum moves
   from 0x1_FFF0 to 0x1_FFFF, so the stored checksum is 0xFFFF while the
   segment sent has checksum 0xFFFE.
   */
  lemma AckChecksumCanBeStale()
    ensures var s := Segment(PORT, PORT, 0, 0, 0xFFFF_E05F, 0, FIN, 0, 0, 0, 0);
      var r := Ack(s, 0, 0);
      r.cksum == 0xFFFF && ComputeChecksum(r) == 0xFFFE && !Valid(r)
  {
    var s := Segment(PORT, PORT, 0, 0, 0xFFFF_E05F, 0, FIN, 0, 0, 0, 0);
    var r := Ack(s, 0, 0);
    assert Lo16(0xFFFF_E05F) == 0xE05F && Hi16(0xFFFF_E05F) == 0xFFFF;
    assert Lo16(0) == 0 && Hi16(0) == 0 && Lo16(1) == 1 && Hi16(1) == 0;
    assert FieldSum(r.(hdrFlags := FIN)) == 0x1_FFF0;
    ChecksumIsSecondCarry(r.(hdrFlags := FIN));
    assert FieldSum(r) == 0x1_FFFF;
    ChecksumIsSecondCarry(r);
  }
}
