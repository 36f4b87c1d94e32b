/**
 The `tcp_hdr` record both endpoints exchange, field by field in declaration
 order, and the view of its first 24 bytes as twelve 16-bit words that the
 checksum reads. The record has no padding: two 16-bit fields, four 32-bit
 fields, then two 16-bit fields fill the first 24 bytes exactly.
 */
module Header {
  import opened Words

  /** Both endpoints stamp this constant into the port fields. */
  const PORT: uint16 := 4040

  /** Flag values the protocol uses (the `hdr_flags` field). */
  const FIN: uint16 := 0x01
  const SYN: uint16 := 0x02
  const ACK: uint16 := 0x10
  const SYN_ACK: uint16 := 0x12

  /** One simulated TCP segment; fields in the order of the C record. */
  datatype Segment = Segment(
    src: uint16,
    dest: uint16,
    seqNum: uint32,
    ackNum: uint32,
    headLength: uint32,
    reserved: uint32,
    hdrFlags: uint16,
    rec: uint16,
    cksum: uint16,
    ptr: uint16,
    opt: uint32
  )

  /** Names of the record's fields, so that a contract can say which ones a builder leaves alone. */
  datatype Field =
    | SrcPort | DestPort | SeqNum | AckNum | HeadLen | Reserved
    | Flags | Window | Cksum | UrgPtr | Options

  function Get(s: Segment, f: Field): int {
    match f
    case SrcPort => s.src
    case DestPort => s.dest
    case SeqNum => s.seqNum
    case AckNum => s.ackNum
    case HeadLen => s.headLength
    case Reserved => s.reserved
    case Flags => s.hdrFlags
    case Window => s.rec
    case Cksum => s.cksum
    case UrgPtr => s.ptr
    case Options => s.opt
  }

  /** `b` holds the same value as `a` in every field outside `changed`. */
  predicate AgreeExcept(a: Segment, b: Segment, changed: set<Field>) {
    forall f: Field :: f !in changed ==> Get(a, f) == Get(b, f)
  }

  /** `a` is an initial part of `b`: a stream that has delivered `a` can go on to deliver `b`. */
  predicate IsPrefix(a: seq<Segment>, b: seq<Segment>) {
    |a| <= |b| && b[..|a|] == a
  }

  /** Byte order of the machine: it decides which half of a 32-bit field a 16-bit word read sees first. */
  datatype ByteOrder = LittleEndian | BigEndian

  /** The two 16-bit words a 32-bit field occupies, in memory order. */
  function Words32(x: uint32, order: ByteOrder): seq<uint16> {
    match order
    case LittleEndian => [Lo16(x), Hi16(x)]
    case BigEndian => [Hi16(x), Lo16(x)]
  }

  /** The 32-bit field stored in words `ws[i]` and `ws[i + 1]`. */
  function Word32At(ws: seq<uint16>, i: nat, order: ByteOrder): uint32
    requires i + 1 < |ws|
  {
    match order
    case LittleEndian => Join16(ws[i + 1], ws[i])
    case BigEndian => Join16(ws[i], ws[i + 1])
  }

  /**
   The first 24 bytes of the record read as twelve `unsigned short` words:
   what copying the record into a 12-word array yields.
   */
  function PrefixWords(s: Segment, order: ByteOrder): (ws: seq<uint16>)
    ensures |ws| == 12
  {
    [s.src, s.dest]
    + Words32(s.seqNum, order) + Words32(s.ackNum, order)
    + Words32(s.headLength, order) + Words32(s.reserved, order)
    + [s.hdrFlags, s.rec]
  }

  /** The record whose first 24 bytes are `ws` and whose remaining fields come from `rest`. */
  function WithPrefix(ws: seq<uint16>, order: ByteOrder, rest: Segment): (r: Segment)
    requires |ws| == 12
    ensures r.cksum == rest.cksum && r.ptr == rest.ptr && r.opt == rest.opt
  {
    rest.(src := ws[0], dest := ws[1],
          seqNum := Word32At(ws, 2, order), ackNum := Word32At(ws, 4, order),
          headLength := Word32At(ws, 6, order), reserved := Word32At(ws, 8, order),
          hdrFlags := ws[10], rec := ws[11])
  }

  lemma Words32RoundTrip(x: uint32, order: ByteOrder)
    ensures Word32At(Words32(x, order), 0, order) == x
  {
    SplitJoin(x);
  }

  /**
   The prefix holds every field up to and including `rec` and nothing else:
   rebuilding a record from its twelve prefix words and its own tail gives
   the record back.
   */
  lemma {:induction false} PrefixRoundTrip(s: Segment, order: ByteOrder)
    ensures WithPrefix(PrefixWords(s, order), order, s) == s
  {
    var ws := PrefixWords(s, order);
    assert ws[2..4] == Words32(s.seqNum, order);
    assert ws[4..6] == Words32(s.ackNum, order);
    assert ws[6..8] == Words32(s.headLength, order);
    assert ws[8..10] == Words32(s.reserved, order);
    Words32RoundTrip(s.seqNum, order);
    Words32RoundTrip(s.ackNum, order);
    Words32RoundTrip(s.headLength, order);
    Words32RoundTrip(s.reserved, order);
  }

  lemma Word32AtRoundTrip(ws: seq<uint16>, i: nat, order: ByteOrder)
    requires i + 1 < |ws|
    ensures Words32(Word32At(ws, i, order), order) == ws[i..i + 2]
  {
    JoinSplit(ws[i], ws[i + 1]);
    JoinSplit(ws[i + 1], ws[i]);
  }

  /**
   Every choice of twelve words is the prefix of some record: writing the
   words into a record and reading the prefix back gives the same words.
   */
  lemma {:induction false} WordsRoundTrip(ws: seq<uint16>, order: ByteOrder, rest: Segment)
    requires |ws| == 12
    ensures PrefixWords(WithPrefix(ws, order, rest), order) == ws
  {
    Word32AtRoundTrip(ws, 2, order);
    Word32AtRoundTrip(ws, 4, order);
    Word32AtRoundTrip(ws, 6, order);
    Word32AtRoundTrip(ws, 8, order);
    assert ws == ws[0..2] + ws[2..4] + ws[4..6] + ws[6..8] + ws[8..10] + ws[10..12];
  }
}
