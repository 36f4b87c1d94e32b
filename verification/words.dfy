/**
 The fixed-width unsigned integers of the C record (`unsigned short int` and
 `unsigned int` on the platforms the simulation targets) and the few
 operations on them that the protocol code uses: splitting a 32-bit value
 into 16-bit halves, a wrapping `+ 1`, and a 16-bit exclusive or.
 */
module Words {

  const TWO_16: int := 0x1_0000
  const TWO_32: int := 0x1_0000_0000
  const MAX_U32: int := 0xFFFF_FFFF

  type uint16 = x: int | 0 <= x < 0x1_0000
  type uint32 = x: int | 0 <= x < 0x1_0000_0000

  /** The low 16 bits of a 32-bit value. */
  function Lo16(x: uint32): uint16 {
    x % TWO_16
  }

  /** The high 16 bits of a 32-bit value. */
  function Hi16(x: uint32): uint16 {
    x / TWO_16
  }

  /** The 32-bit value whose high half is `hi` and whose low half is `lo`. */
  function Join16(hi: uint16, lo: uint16): uint32 {
    hi * TWO_16 + lo
  }

  /** Splitting a 32-bit value and joining the halves gives the value back. */
  lemma SplitJoin(x: uint32)
    ensures Join16(Hi16(x), Lo16(x)) == x
  {
  }

  /** Joining two halves and splitting the result gives the halves back. */
  lemma JoinSplit(hi: uint16, lo: uint16)
    ensures Hi16(Join16(hi, lo)) == hi
    ensures Lo16(Join16(hi, lo)) == lo
  {
  }

  /**
   `x + 1` stored into an `unsigned int`: the sum wraps to 0 past the
   largest 32-bit value.
   */
  function Inc32(x: uint32): (r: uint32)
    ensures x < MAX_U32 ==> r == x + 1
    ensures x == MAX_U32 ==> r == 0
    ensures r != x
  {
    (x + 1) % TWO_32
  }

  /** The C operator `^` on two 16-bit operands. */
  function Xor16(a: uint16, b: uint16): uint16 {
    ((a as bv16) ^ (b as bv16)) as int
  }

  /**
   Exclusive or with all sixteen ones flips a carry bit: 0 gives 0xFFFF and
   1 gives 0xFFFE.
   */
  lemma XorAllOnesBit(c: uint16)
    requires c <= 1
    ensures Xor16(0xFFFF, c) == 0xFFFF - c
  {
    if c == 0 {
      assert (0xFFFF as bv16) ^ (0 as bv16) == 0xFFFF;
    } else {
      assert (0xFFFF as bv16) ^ (1 as bv16) == 0xFFFE;
    }
  }
}
