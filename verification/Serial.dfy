/** 32-bit sequence numbers and their signed-difference order (section 3.2 of RFC 1982). */
module Serial {
  const WORD: int := 0x1_0000_0000
  const HALF: int := 0x8000_0000

  type byte = x: int | 0 <= x < 256
  type uint32 = x: int | 0 <= x < 0x1_0000_0000

  function Add32(a: uint32, n: int): uint32 {
    (a + n) % WORD
  }

  function Sub32(a: uint32, b: uint32): uint32 {
    (a - b) % WORD
  }

  /** The difference is negative when read as a signed 32-bit integer. */
  predicate SeqLt(a: uint32, b: uint32) {
    Sub32(a, b) >= HALF
  }

  predicate SeqLe(a: uint32, b: uint32) {
    Sub32(a, b) >= HALF || a == b
  }

  predicate SeqGt(a: uint32, b: uint32) {
    0 < Sub32(a, b) < HALF
  }

  /** The sequence number of stream position `pos`, when position 0 is numbered `base`. */
  function At(base: uint32, pos: int): uint32 {
    (base + pos) % WORD
  }

  /** The position in the first 2^32 bytes of the stream that carries sequence number `sn`. */
  function Off(base: uint32, sn: uint32): uint32 {
    (sn - base) % WORD
  }

  /** Serial comparison agrees with the order of positions exactly as far as 2^31 apart,
      whatever the base, hence also where the numbers wrap. */
  lemma SerialOrder(base: uint32, x: int, y: int)
    requires -HALF <= x - y < HALF
    ensures SeqLt(At(base, x), At(base, y)) <==> x < y
    ensures x - y != -HALF ==> (SeqGt(At(base, x), At(base, y)) <==> x > y)
    ensures SeqLe(At(base, x), At(base, y)) <==> x <= y
    ensures At(base, x) == At(base, y) <==> x == y
  {
    Difference(base, x, y);
  }

  /** Outside that window the comparison is wrong: 2^31 <= x - y < 2^32 reads as "before". */
  lemma SerialOrderLimit(base: uint32, x: int, y: int)
    requires HALF <= x - y < WORD
    ensures SeqLt(At(base, x), At(base, y)) && !SeqGt(At(base, x), At(base, y))
  {
    Difference(base, x, y);
  }

  lemma Difference(base: uint32, x: int, y: int)
    ensures Sub32(At(base, x), At(base, y)) == (x - y) % WORD
    ensures (x - y) % WORD == 0 <==> At(base, x) == At(base, y)
  {
  }

  lemma OffAt(base: uint32, pos: int)
    ensures Off(base, At(base, pos)) == pos % WORD
    ensures 0 <= pos < WORD ==> Off(base, At(base, pos)) == pos
  {
  }

  lemma AtOff(base: uint32, sn: uint32)
    ensures At(base, Off(base, sn)) == sn
  {
  }

  lemma AtAdd(base: uint32, pos: int, n: int)
    ensures Add32(At(base, pos), n) == At(base, pos + n)
  {
  }
}
