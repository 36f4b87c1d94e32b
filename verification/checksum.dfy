/**
 `ComputeChecksum`, identical in both programs: sum the twelve 16-bit words of
 the record's first 24 bytes in a 32-bit accumulator, fold the carry out of
 the high half back into the low half twice, and return `0xFFFF ^ cksum`.
 The value XORed is the variable holding the carry of the SECOND fold, not the
 folded sum, so the result is always 0xFFFF or 0xFFFE. The model follows the
 code.
 */
module Checksum {
  import opened Words
  import opened Header

  /** The sum of a word sequence, accumulated from the front. */
  function WordSum(ws: seq<uint16>): nat {
    if |ws| == 0 then 0 else WordSum(ws[..|ws| - 1]) + ws[|ws| - 1]
  }

  lemma {:induction false} WordSumAppend(a: seq<uint16>, b: seq<uint16>)
    ensures WordSum(a + b) == WordSum(a) + WordSum(b)
    decreases |b|
  {
    if |b| == 0 {
      assert a + b == a;
    } else {
      var b' := b[..|b| - 1];
      assert (a + b)[..|a + b| - 1] == a + b';
      WordSumAppend(a, b');
    }
  }

  /**
   The prefix sum from field values alone: each 16-bit field once, each
   32-bit field as its low half plus its high half.
   */
  function FieldSum(s: Segment): nat {
    s.src + s.dest
    + Lo16(s.seqNum) + Hi16(s.seqNum)
    + Lo16(s.ackNum) + Hi16(s.ackNum)
    + Lo16(s.headLength) + Hi16(s.headLength)
    + Lo16(s.reserved) + Hi16(s.reserved)
    + s.hdrFlags + s.rec
  }

  /** Twelve words of at most 0xFFFF: the 32-bit accumulator never wraps. */
  lemma FieldSumBound(s: Segment)
    ensures FieldSum(s) <= 12 * 0xFFFF < TWO_32
  {
  }

  /**
   Summing the twelve words the record's prefix holds gives the field sum,
   whichever byte order the machine uses.
   */
  lemma {:induction false} PrefixSumIsFieldSum(s: Segment, order: ByteOrder)
    ensures WordSum(PrefixWords(s, order)) == FieldSum(s)
  {
    var w16 := [s.src, s.dest];
    var wSeq := Words32(s.seqNum, order);
    var wAck := Words32(s.ackNum, order);
    var wLen := Words32(s.headLength, order);
    var wRes := Words32(s.reserved, order);
    var wTail := [s.hdrFlags, s.rec];
    WordSumAppend(w16 + wSeq + wAck + wLen + wRes, wTail);
    WordSumAppend(w16 + wSeq + wAck + wLen, wRes);
    WordSumAppend(w16 + wSeq + wAck, wLen);
    WordSumAppend(w16 + wSeq, wAck);
    WordSumAppend(w16, wSeq);
    WordSumPair(s.src, s.dest);
    WordSumPair(s.hdrFlags, s.rec);
    Words32Sum(s.seqNum, order);
    Words32Sum(s.ackNum, order);
    Words32Sum(s.headLength, order);
    Words32Sum(s.reserved, order);
  }

  lemma WordSumPair(a: uint16, b: uint16)
    ensures WordSum([a, b]) == a + b
  {
    assert [a, b][..1] == [a];
    assert [a][..0] == [];
    assert WordSum([a]) == WordSum([]) + a;
    assert WordSum([a, b]) == WordSum([a]) + b;
  }

  lemma Words32Sum(x: uint32, order: ByteOrder)
    ensures WordSum(Words32(x, order)) == Lo16(x) + Hi16(x)
  {
    WordSumPair(Lo16(x), Hi16(x));
    WordSumPair(Hi16(x), Lo16(x));
  }

  /** The carry out of the high half of an accumulator. */
  function Carry(sum: nat): nat {
    sum / TWO_16
  }

  /** One fold: the carry added back into the low half. */
  function Fold(sum: nat): nat {
    Carry(sum) + sum % TWO_16
  }

  /**
   Twelve words give a first carry of at most 11, so the second fold carries
   at most 1 and leaves a 16-bit value. Folding keeps the ones'-complement sum
   (the value modulo 0xFFFF); the C code computes that folded sum and then
   discards it, returning a value built from the second carry instead, so the
   last two clauses describe the value a ones'-complement checksum would use,
   not the one returned.
   */
  lemma FoldTwiceFits(sum: nat)
    requires sum <= 12 * 0xFFFF
    ensures Carry(sum) <= 11
    ensures Carry(Fold(sum)) <= 1
    ensures Fold(Fold(sum)) < TWO_16
    ensures Fold(sum) % 0xFFFF == sum % 0xFFFF
    ensures Fold(Fold(sum)) % 0xFFFF == sum % 0xFFFF
  {
    FoldKeepsResidue(sum);
    FoldKeepsResidue(Fold(sum));
  }

  lemma FoldKeepsResidue(sum: nat)
    ensures Fold(sum) % 0xFFFF == sum % 0xFFFF
  {
    var c := sum / TWO_16;
    var l := sum % TWO_16;
    assert sum == c * 0xFFFF + (c + l);
  }

  /** The checksum of a segment, as both programs compute it. */
  function ComputeChecksum(s: Segment): (r: uint16)
    ensures r == 0xFFFF || r == 0xFFFE
  {
    FieldSumBound(s);
    FoldTwiceFits(FieldSum(s));
    var carry := Carry(Fold(FieldSum(s)));
    XorAllOnesBit(carry);
    Xor16(0xFFFF, carry)
  }

  /**
   The checksum is 0xFFFE exactly when the once-folded sum still overflows 16
   bits, and 0xFFFF otherwise: it records the second carry, not the sum.
   */
  lemma ChecksumIsSecondCarry(s: Segment)
    ensures ComputeChecksum(s) == 0xFFFE <==> FieldSum(s) % TWO_16 + FieldSum(s) / TWO_16 >= TWO_16
    ensures ComputeChecksum(s) == 0xFFFF <==> FieldSum(s) % TWO_16 + FieldSum(s) / TWO_16 < TWO_16
  {
    FieldSumBound(s);
    FoldTwiceFits(FieldSum(s));
    XorAllOnesBit(Carry(Fold(FieldSum(s))));
  }

  /** A segment whose prefix sums to less than 2^16 always gets 0xFFFF. */
  lemma SmallSumChecksum(s: Segment)
    requires FieldSum(s) < TWO_16
    ensures ComputeChecksum(s) == 0xFFFF
  {
    ChecksumIsSecondCarry(s);
  }

  /**
   The checksum reads only the 24-byte prefix: two segments with the same
   prefix words have the same checksum, and the fields after the prefix
   (`cksum`, `ptr`, `opt`) never matter.
   */
  lemma {:induction false} ChecksumDependsOnPrefix(a: Segment, b: Segment, order: ByteOrder)
    requires PrefixWords(a, order) == PrefixWords(b, order)
    ensures ComputeChecksum(a) == ComputeChecksum(b)
  {
    PrefixSumIsFieldSum(a, order);
    PrefixSumIsFieldSum(b, order);
  }

  lemma ChecksumIgnoresTail(s: Segment, cksum: uint16, ptr: uint16, opt: uint32)
    ensures ComputeChecksum(s.(cksum := cksum, ptr := ptr, opt := opt)) == ComputeChecksum(s)
  {
    ChecksumDependsOnPrefix(s, s.(cksum := cksum, ptr := ptr, opt := opt), LittleEndian);
  }

  /** The segment carries the checksum of its own current contents. */
  predicate Valid(s: Segment) {
    s.cksum == ComputeChecksum(s)
  }

  /**
   The summing loop of the C function: the twelve words added into an
   `unsigned int`, whose `+` wraps modulo 2^32. It never wraps here.
   */
  method SumWords(words: seq<uint16>) returns (sum: uint32)
    requires |words| == 12
    ensures sum == WordSum(words)
  {
    sum := 0;
    var i := 0;
    while i < 12
      invariant 0 <= i <= 12
      invariant sum == WordSum(words[..i])
      invariant sum <= i * 0xFFFF
    {
      assert words[..i + 1][..i] == words[..i];
      sum := (sum + words[i]) % TWO_32;
      i := i + 1;
    }
    assert words[..12] == words;
  }

  /**
   The C function step by step: copy the prefix into twelve words, sum them,
   fold twice, XOR. The segment is a value parameter, so the caller's record
   (its `cksum` field included) is never changed.
   */
  method ChecksumOfWords(s: Segment, order: ByteOrder) returns (r: uint16)
    ensures r == ComputeChecksum(s)
  {
    var words := PrefixWords(s, order);
    var sum := SumWords(words);
    PrefixSumIsFieldSum(s, order);
    FieldSumBound(s);
    FoldTwiceFits(sum);
    ghost var total := sum;
    var cksum: uint32 := sum / TWO_16;   // fold once
    sum := sum % TWO_16;
    sum := (cksum + sum) % TWO_32;
    assert sum == Fold(total);
    cksum := sum / TWO_16;               // fold again
    assert cksum == Carry(Fold(total));
    sum := sum % TWO_16;
    sum := (cksum + sum) % TWO_32;
    r := Xor16(0xFFFF, cksum);
  }
}
