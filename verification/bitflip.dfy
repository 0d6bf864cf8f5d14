/**
 The CRC-guided bit-flip corrector. Given a memory block and the CRC it had
 while intact, it flips each bit in turn, keeps the flip if the CRC matches and
 undoes it otherwise; if no single bit helps it tries every pair of bits i < j
 the same way. Bit i lives in byte ALIGN(i, 8) under the mask bitshift(i).

 The CRC function is a parameter; the block is a sequence of bytes updated in
 place, and the record `struct crc32_correction` is a datatype returned whole.
 */
module Bitflip {

  /** The mask table of bitshift: entry k is 1 << k. */
  const JUMP_TABLE: seq<bv8> := [1, 2, 4, 8, 16, 32, 64, 128]

  /** Largest bit count for which every bit index the corrector forms still
      fits the `int` parameter of bitshift. */
  const MAX_BITS: nat := 0x8000_0000

  /** ALIGN(x, y): x rounded down to a multiple of y, then divided by y; that is
      the quotient x / y, the number of whole y-blocks below x. */
  function Align(x: nat, y: nat): (r: nat)
    requires y > 0
    ensures r == x / y
    ensures r * y <= x < (r + 1) * y
  {
    var q := x / y;
    assert x - x % y == q * y;
    DivMul(q, y);
    (x - x % y) / y
  }

  lemma DivMul(q: nat, y: nat)
    requires y > 0
    ensures (q * y) / y == q
  {
    var z := q * y;
    var d, m := z / y, z % y;
    assert z == d * y + m;
    Distrib(q, d, y);
    if q > d {
      MulAtLeast(q - d, y);
    } else if q < d {
      Distrib(d, q, y);
      MulAtLeast(d - q, y);
    }
  }

  lemma Distrib(a: int, b: int, y: int)
    ensures (a - b) * y == a * y - b * y
  {
  }

  lemma MulAtLeast(a: int, y: int)
    requires a >= 1 && y > 0
    ensures a * y >= y
  {
  }

  /** bitshift for an in-range shift: the mask of bit `shift % 8` within its
      byte, read from the table. */
  function BitShift(shift: nat): (m: bv8)
    ensures m == 1 << (shift % 8)
  {
    var p := shift % 8;
    assert p == 0 || p == 1 || p == 2 || p == 3 || p == 4 || p == 5 || p == 6 || p == 7;
    JUMP_TABLE[p]
  }

  /** The conversion of the corrector's `unsigned` bit index to the `int`
      parameter of bitshift: indices from 2^31 on become negative. */
  function ToCInt(i: nat): (r: int)
    requires i < 0x1_0000_0000
    ensures -0x8000_0000 <= r < 0x8000_0000
    ensures r % 0x1_0000_0000 == i
  {
    if i < 0x8000_0000 then i else i - 0x1_0000_0000
  }

  /** C's `%`, which truncates toward zero. */
  function CRem(a: int, n: nat): (r: int)
    requires n > 0
    ensures -(n as int) < r < n
    ensures a >= 0 ==> r == a % n
    ensures a < 0 ==> r <= 0
  {
    if a >= 0 then a % n else -((-a) % n)
  }

  /** The index bitshift reads `jump_table` at for the corrector's unsigned bit
      index i, as written: `(int)i % 8`. */
  function TableIndexAsWritten(i: nat): (r: int)
    requires i < 0x1_0000_0000
    ensures -8 < r < 8
  {
    CRem(ToCInt(i), 8)
  }

  /** Bit index 2^31 + 1 becomes the negative shift -2147483647, and the table
      is read at index -7, before its start. */
  lemma TableIndexOutOfBounds()
    ensures TableIndexAsWritten(0x8000_0001) == -7
  {
    assert ToCInt(0x8000_0001) == -0x7FFF_FFFF;
  }

  /** Below MAX_BITS the written index is the unsigned bit position within the
      byte, the one BitShift reads. */
  lemma TableIndexInBounds(i: nat)
    requires i < MAX_BITS
    ensures TableIndexAsWritten(i) == i % 8
    ensures 0 <= TableIndexAsWritten(i) < |JUMP_TABLE|
  {
  }

  // ---------------------------------------------------------------------------
  // Bits of a byte sequence
  // ---------------------------------------------------------------------------

  /** Bit p of a byte. */
  predicate ByteBit(x: bv8, p: nat)
    requires p < 8
  {
    (x >> p) & 1 == 1
  }

  /** Bit b of the block: bit b % 8 of byte b / 8. */
  predicate Bit(mem: seq<bv8>, b: nat)
    requires b < |mem| * 8
  {
    ByteBit(mem[b / 8], b % 8)
  }

  /** The byte operation of `^=`. */
  function Xor8(a: bv8, b: bv8): bv8
  {
    a ^ b
  }

  /** `ptr[ALIGN(i, 8)] ^= bitshift(i)`. */
  function FlipBit(mem: seq<bv8>, i: nat): (r: seq<bv8>)
    requires i < |mem| * 8
    ensures |r| == |mem|
    ensures forall k :: 0 <= k < |mem| && k != i / 8 ==> r[k] == mem[k]
  {
    mem[Align(i, 8) := Xor8(mem[Align(i, 8)], BitShift(i))]
  }

  /** The two blocks have the same length and differ in exactly the bits of `bits`. */
  ghost predicate DiffersExactlyIn(a: seq<bv8>, b: seq<bv8>, bits: set<nat>)
  {
    && |a| == |b|
    && (forall k :: 0 <= k < |a| * 8 ==> (Bit(a, k) != Bit(b, k) <==> k in bits))
  }

  lemma XorTwice8(x: bv8, m: bv8)
    ensures Xor8(Xor8(x, m), m) == x
  {
  }

  lemma XorSwap8(x: bv8, m: bv8, n: bv8)
    ensures Xor8(Xor8(x, m), n) == Xor8(Xor8(x, n), m)
  {
  }

  /** Flipping with the mask of bit p changes bit q of a byte exactly when p == q. */
  lemma ByteBitFlip(x: bv8, p: nat, q: nat)
    requires p < 8 && q < 8
    ensures ByteBit(Xor8(x, JUMP_TABLE[p]), q) != ByteBit(x, q) <==> p == q
  {
    assert q == 0 || q == 1 || q == 2 || q == 3 || q == 4 || q == 5 || q == 6 || q == 7;
  }

  /** Undoing a flip: the restore statement gives back the block. */
  lemma FlipBitInvolution(mem: seq<bv8>, i: nat)
    requires i < |mem| * 8
    ensures FlipBit(FlipBit(mem, i), i) == mem
  {
    var a, m := i / 8, BitShift(i);
    XorTwice8(mem[a], m);
    assert FlipBit(mem, i) == mem[a := Xor8(mem[a], m)];
  }

  /** Two flips may be applied in either order. */
  lemma FlipsCommute(mem: seq<bv8>, i: nat, j: nat)
    requires i < |mem| * 8 && j < |mem| * 8
    ensures FlipBit(FlipBit(mem, i), j) == FlipBit(FlipBit(mem, j), i)
  {
    var a, b := i / 8, j / 8;
    var mi, mj := BitShift(i), BitShift(j);
    assert FlipBit(mem, i) == mem[a := Xor8(mem[a], mi)];
    assert FlipBit(mem, j) == mem[b := Xor8(mem[b], mj)];
    if a == b {
      XorSwap8(mem[a], mi, mj);
    }
  }

  /** A flip changes exactly bit i. */
  lemma FlipChangesExactlyOneBit(mem: seq<bv8>, i: nat)
    requires i < |mem| * 8
    ensures DiffersExactlyIn(mem, FlipBit(mem, i), {i})
  {
    var r := FlipBit(mem, i);
    var a := i / 8;
    assert r == mem[a := Xor8(mem[a], BitShift(i))];
    forall k | 0 <= k < |mem| * 8
      ensures Bit(mem, k) != Bit(r, k) <==> k in {i}
    {
      if k / 8 == a {
        ByteBitFlip(mem[a], i % 8, k % 8);
        assert k % 8 == i % 8 <==> k == i;
      } else {
        assert r[k / 8] == mem[k / 8];
      }
    }
  }

  /** Flipping two different bits changes exactly those two. */
  lemma FlipPairChangesExactlyTwoBits(mem: seq<bv8>, i: nat, j: nat)
    requires i < |mem| * 8 && j < |mem| * 8 && i != j
    ensures DiffersExactlyIn(mem, FlipBit(FlipBit(mem, i), j), {i, j})
  {
    var m1 := FlipBit(mem, i);
    var m2 := FlipBit(m1, j);
    FlipChangesExactlyOneBit(mem, i);
    FlipChangesExactlyOneBit(m1, j);
    forall k | 0 <= k < |mem| * 8
      ensures Bit(mem, k) != Bit(m2, k) <==> k in {i, j}
    {
      assert Bit(mem, k) != Bit(m1, k) <==> k == i;
      assert Bit(m1, k) != Bit(m2, k) <==> k == j;
    }
  }

  // ---------------------------------------------------------------------------
  // struct crc32_correction and the corrector
  // ---------------------------------------------------------------------------

  /** The correction record; `size` is the length of `memory`, and the one-bit
      field `fixed` is a flag. */
  datatype Correction = Correction(memory: seq<bv8>, origCrc: bv32, errorOffset: nat, fixed: bool)

  /** Which search found the match, with the bit indices at that moment. */
  datatype Hit = NoMatch | SingleBit(i: nat) | DoubleBit(i: nat, j: nat)

  /** Flipping bit i alone gives the recorded CRC. */
  predicate SingleMatches(crc: seq<bv8> -> bv32, c: Correction, i: nat)
    requires i < |c.memory| * 8
  {
    crc(FlipBit(c.memory, i)) == c.origCrc
  }

  /** Flipping bit i and then bit j gives the recorded CRC. */
  predicate PairMatches(crc: seq<bv8> -> bv32, c: Correction, i: nat, j: nat)
    requires i < j < |c.memory| * 8
  {
    crc(FlipBit(FlipBit(c.memory, i), j)) == c.origCrc
  }

  /** (i1, j1) comes before (i2, j2) in the order the nested loops try pairs. */
  predicate PairBefore(i1: nat, j1: nat, i2: nat, j2: nat)
  {
    i1 < i2 || (i1 == i2 && j1 < j2)
  }

  /**
   The result of the corrector, stated without its loops: the first single bit
   whose flip matches; failing that, the first pair in loop order; failing
   that, the record as it came in. A match records the byte of the first
   flipped bit and sets `fixed`.
   */
  ghost predicate BitflipOutcome(crc: seq<bv8> -> bv32, c: Correction, out: Correction, hit: Hit)
  {
    var bits := |c.memory| * 8;
    match hit
    case NoMatch =>
      && out == c
      && (forall i :: 0 <= i < bits ==> !SingleMatches(crc, c, i))
      && (forall i, j :: 0 <= i < j < bits ==> !PairMatches(crc, c, i, j))
    case SingleBit(i) =>
      && i < bits
      && SingleMatches(crc, c, i)
      && (forall i' :: 0 <= i' < i ==> !SingleMatches(crc, c, i'))
      && out == c.(memory := FlipBit(c.memory, i), errorOffset := i / 8, fixed := true)
    case DoubleBit(i, j) =>
      && i < j < bits
      && PairMatches(crc, c, i, j)
      && (forall k :: 0 <= k < bits ==> !SingleMatches(crc, c, k))
      && (forall i', j' :: 0 <= i' < j' < bits && PairBefore(i', j', i, j) ==> !PairMatches(crc, c, i', j'))
      && out == c.(memory := FlipBit(FlipBit(c.memory, i), j), errorOffset := i / 8, fixed := true)
  }

  /** crc32_bitflip_corrector: flip, test, restore, bit by bit and then pair by pair. */
  method CrcBitflipCorrector(c: Correction, crc: seq<bv8> -> bv32) returns (out: Correction, hit: Hit)
    requires |c.memory| * 8 <= MAX_BITS
    ensures BitflipOutcome(crc, c, out, hit)
    ensures hit != NoMatch ==> out.errorOffset < |c.memory|
  {
    var bits := |c.memory| * 8;
    var found, i, mem := SingleBitPass(c, crc);
    if found {
      return c.(memory := mem, errorOffset := Align(i, 8), fixed := true), SingleBit(i);
    }
    var j;
    found, i, j, mem := DoubleBitPass(c, crc);
    if found {
      return c.(memory := mem, errorOffset := Align(i, 8), fixed := true), DoubleBit(i, j);
    }
    return c, NoMatch;
  }

  /** The first loop of the corrector: the first bit whose flip matches, with
      the block left flipped; or no match, with every flip undone. */
  method SingleBitPass(c: Correction, crc: seq<bv8> -> bv32) returns (found: bool, i: nat, mem: seq<bv8>)
    requires |c.memory| * 8 <= MAX_BITS
    ensures i <= |c.memory| * 8
    ensures forall k :: 0 <= k < i ==> !SingleMatches(crc, c, k)
    ensures found ==> i < |c.memory| * 8 && SingleMatches(crc, c, i) && mem == FlipBit(c.memory, i)
    ensures !found ==> i == |c.memory| * 8 && mem == c.memory
  {
    var bits := |c.memory| * 8;
    mem := c.memory;
    i := 0;
    while i < bits
      invariant i <= bits
      invariant mem == c.memory
      invariant forall k :: 0 <= k < i ==> !SingleMatches(crc, c, k)
    {
      mem := FlipBit(mem, i);
      if c.origCrc == crc(mem) {
        return true, i, mem;
      }
      FlipBitInvolution(c.memory, i);
      mem := FlipBit(mem, i);
      i := i + 1;
    }
    return false, i, mem;
  }

  /** No pair tried before (i, j) by the nested loops matches. */
  ghost predicate NoPairMatchBefore(crc: seq<bv8> -> bv32, c: Correction, i: nat, j: nat)
  {
    forall a, b :: 0 <= a < b < |c.memory| * 8 && PairBefore(a, b, i, j) ==> !PairMatches(crc, c, a, b)
  }

  /** The inner loop moves past a pair that does not match. */
  lemma NoPairMatchNext(crc: seq<bv8> -> bv32, c: Correction, i: nat, j: nat)
    requires i < j < |c.memory| * 8
    requires NoPairMatchBefore(crc, c, i, j) && !PairMatches(crc, c, i, j)
    ensures NoPairMatchBefore(crc, c, i, j + 1)
  {
  }

  /** The outer loop moves to the next row once a row is exhausted. */
  lemma NoPairMatchNextRow(crc: seq<bv8> -> bv32, c: Correction, i: nat)
    requires i < |c.memory| * 8
    requires NoPairMatchBefore(crc, c, i, |c.memory| * 8)
    ensures NoPairMatchBefore(crc, c, i + 1, i + 2)
  {
  }

  /** The nested loops of the corrector: the first pair i < j, in loop order,
      whose two flips match, with the block left flipped; or no match, with
      every flip undone. */
  method DoubleBitPass(c: Correction, crc: seq<bv8> -> bv32)
      returns (found: bool, i: nat, j: nat, mem: seq<bv8>)
    requires |c.memory| * 8 <= MAX_BITS
    ensures found ==> i < j < |c.memory| * 8 && PairMatches(crc, c, i, j)
                      && mem == FlipBit(FlipBit(c.memory, i), j)
                      && NoPairMatchBefore(crc, c, i, j)
    ensures !found ==> mem == c.memory
                       && forall a, b :: 0 <= a < b < |c.memory| * 8 ==> !PairMatches(crc, c, a, b)
  {
    var bits := |c.memory| * 8;
    mem := c.memory;
    i := 0;
    while i < bits
      invariant i <= bits
      invariant mem == c.memory
      invariant NoPairMatchBefore(crc, c, i, i + 1)
    {
      mem := FlipBit(mem, i);
      j := i + 1;
      while j < bits
        invariant i < j <= bits
        invariant mem == FlipBit(c.memory, i)
        invariant NoPairMatchBefore(crc, c, i, j)
      {
        mem := FlipBit(mem, j);
        if c.origCrc == crc(mem) {
          return true, i, j, mem;
        }
        NoPairMatchNext(crc, c, i, j);
        FlipBitInvolution(FlipBit(c.memory, i), j);
        mem := FlipBit(mem, j);
        j := j + 1;
      }
      NoPairMatchNextRow(crc, c, i);
      FlipBitInvolution(c.memory, i);
      mem := FlipBit(mem, i);
      i := i + 1;
    }
    return false, i, 0, mem;
  }

  // ---------------------------------------------------------------------------
  // Properties
  // ---------------------------------------------------------------------------

  /** The outcome is determined by the record and the CRC. */
  lemma BitflipOutcomeIsUnique(crc: seq<bv8> -> bv32, c: Correction,
                               out1: Correction, hit1: Hit, out2: Correction, hit2: Hit)
    requires BitflipOutcome(crc, c, out1, hit1) && BitflipOutcome(crc, c, out2, hit2)
    ensures hit1 == hit2 && out1 == out2
  {
    if hit1.SingleBit? && hit2.SingleBit? {
      assert !(hit1.i < hit2.i) && !(hit2.i < hit1.i);
    } else if hit1.DoubleBit? && hit2.DoubleBit? {
      assert !PairBefore(hit1.i, hit1.j, hit2.i, hit2.j) && !PairBefore(hit2.i, hit2.j, hit1.i, hit1.j);
    }
  }

  /**
   A block that is its intact version with bit k flipped is repaired exactly:
   provided no earlier single flip collides on the CRC, the corrector finds
   bit k, returns the intact block and records k's byte.
   */
  lemma SingleBitRecovery(crc: seq<bv8> -> bv32, intact: seq<bv8>, k: nat, c: Correction,
                          out: Correction, hit: Hit)
    requires k < |intact| * 8
    requires c.memory == FlipBit(intact, k) && c.origCrc == crc(intact)
    requires forall i :: 0 <= i < k ==> !SingleMatches(crc, c, i)
    requires BitflipOutcome(crc, c, out, hit)
    ensures hit == SingleBit(k)
    ensures out.memory == intact && out.errorOffset == k / 8 && out.fixed
  {
    FlipBitInvolution(intact, k);
    assert SingleMatches(crc, c, k);
    match hit
    case NoMatch =>
    case SingleBit(i) =>
      assert !(k < i);
    case DoubleBit(i, j) =>
  }

  /**
   A block that is its intact version with bits k1 < k2 flipped is repaired
   exactly when no single flip and no earlier pair collides on the CRC; only
   the byte of k1 is recorded.
   */
  lemma DoubleBitRecovery(crc: seq<bv8> -> bv32, intact: seq<bv8>, k1: nat, k2: nat, c: Correction,
                          out: Correction, hit: Hit)
    requires k1 < k2 < |intact| * 8
    requires c.memory == FlipBit(FlipBit(intact, k1), k2) && c.origCrc == crc(intact)
    requires forall i :: 0 <= i < |c.memory| * 8 ==> !SingleMatches(crc, c, i)
    requires forall i, j :: 0 <= i < j < |c.memory| * 8 && PairBefore(i, j, k1, k2) ==> !PairMatches(crc, c, i, j)
    requires BitflipOutcome(crc, c, out, hit)
    ensures hit == DoubleBit(k1, k2)
    ensures out.memory == intact && out.errorOffset == k1 / 8 && out.fixed
  {
    var m1 := FlipBit(intact, k1);
    FlipsCommute(m1, k2, k1);
    FlipBitInvolution(intact, k1);
    FlipBitInvolution(intact, k2);
    assert FlipBit(FlipBit(c.memory, k1), k2) == intact;
    assert PairMatches(crc, c, k1, k2);
    match hit
    case NoMatch =>
    case SingleBit(i) =>
    case DoubleBit(i, j) =>
      assert !PairBefore(k1, k2, i, j);
  }
}
