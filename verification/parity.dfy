/**
 The four-lane XOR parity of fparity32 and fparity64. The block is a sequence of
 32- or 64-bit words; the unrolled loop XORs them into four accumulators p1..p4
 following the schedule of LaneSchedule, and the result is p1^p2^p3^p4^seed.
 Every result is related to the plain single-accumulator fold XorFold32/XorFold64.

 The lane bookkeeping only uses that XOR is associative, commutative, has 0 as
 unit and makes every word its own inverse, so it is stated once for any such
 operation (`IsXorGroup`) and then used at 32 and 64 bits.
 */
module Parity {
  import opened LaneSchedule

  /** `-1` converted to the result type: what a misaligned length returns. */
  const ALL_ONES_32: bv32 := 0xFFFF_FFFF
  const ALL_ONES_64: bv64 := 0xFFFF_FFFF_FFFF_FFFF

  /** The accumulators p1..p4 are lanes[0]..lanes[3]. */
  const LANE_COUNT := 4

  // ---------------------------------------------------------------------------
  // XOR as an abstract operation
  // ---------------------------------------------------------------------------

  ghost predicate IsXorGroup<W(!new)>(op: (W, W) -> W, zero: W)
  {
    && (forall a, b, c {:trigger op(op(a, b), c), op(a, op(b, c))} :: op(op(a, b), c) == op(a, op(b, c)))
    && (forall a, b {:trigger op(a, b), op(b, a)} :: op(a, b) == op(b, a))
    && (forall a :: op(a, zero) == a)
    && (forall a :: op(a, a) == zero)
  }

  /** The single-accumulator fold: w0 op (w1 op (... op zero)). */
  function Fold<W>(op: (W, W) -> W, zero: W, s: seq<W>): W
  {
    if |s| == 0 then zero else op(s[0], Fold(op, zero, s[1..]))
  }

  lemma {:induction false} FoldAppend<W(!new)>(op: (W, W) -> W, zero: W, a: seq<W>, b: seq<W>)
    requires IsXorGroup(op, zero)
    ensures Fold(op, zero, a + b) == op(Fold(op, zero, a), Fold(op, zero, b))
  {
    if |a| == 0 {
      assert a + b == b;
      assert op(zero, Fold(op, zero, b)) == op(Fold(op, zero, b), zero);
    } else {
      assert (a + b)[1..] == a[1..] + b;
      FoldAppend(op, zero, a[1..], b);
    }
  }

  /** Replacing one word changes the fold by exactly the old word op the new one. */
  lemma {:induction false} FoldUpdate<W(!new)>(op: (W, W) -> W, zero: W, s: seq<W>, k: nat, v: W)
    requires IsXorGroup(op, zero)
    requires k < |s|
    ensures Fold(op, zero, s[k := v]) == op(op(Fold(op, zero, s), s[k]), v)
  {
    var rest := Fold(op, zero, s[1..]);
    if k > 0 {
      assert s[k := v][1..] == s[1..][k - 1 := v];
      FoldUpdate(op, zero, s[1..], k - 1, v);
      calc {
        op(s[0], op(op(rest, s[k]), v));
        op(op(s[0], op(rest, s[k])), v);
        op(op(op(s[0], rest), s[k]), v);
      }
    } else {
      assert s[k := v][1..] == s[1..];
      calc {
        op(op(op(s[0], rest), s[0]), v);
        { assert op(s[0], rest) == op(rest, s[0]); }
        op(op(op(rest, s[0]), s[0]), v);
        op(op(rest, op(s[0], s[0])), v);
        op(op(rest, zero), v);
        op(rest, v);
        op(v, rest);
      }
    }
  }

  lemma FoldSingle<W(!new)>(op: (W, W) -> W, zero: W, w: W)
    requires IsXorGroup(op, zero)
    ensures Fold(op, zero, [w]) == w
  {
    assert [w][1..] == [];
  }

  lemma FoldPairWithZero<W(!new)>(op: (W, W) -> W, zero: W, w: W)
    requires IsXorGroup(op, zero)
    ensures Fold(op, zero, [w, zero]) == w
  {
    assert [w, zero][1..] == [zero];
    FoldSingle(op, zero, zero);
  }

  /** A word absorbed twice cancels: (p op x) op (x op w) == p op w. */
  lemma Cancel<W(!new)>(op: (W, W) -> W, zero: W, p: W, x: W, w: W)
    requires IsXorGroup(op, zero)
    ensures op(op(p, x), op(x, w)) == op(p, w)
  {
    calc {
      op(op(p, x), op(x, w));
      op(p, op(x, op(x, w)));
      { assert op(x, op(x, w)) == op(op(x, x), w); }
      op(p, op(op(x, x), w));
      { assert op(op(x, x), w) == op(w, zero); }
      op(p, w);
    }
  }

  /** Four lanes folded as the closing statement does, (((p1 op p2) op p3) op p4). */
  lemma FoldOfFour<W(!new)>(op: (W, W) -> W, zero: W, l: seq<W>)
    requires IsXorGroup(op, zero)
    requires |l| == LANE_COUNT
    ensures Fold(op, zero, l) == op(op(op(l[0], l[1]), l[2]), l[3])
  {
    assert l == [l[0], l[1], l[2]] + [l[3]];
    FoldAppend(op, zero, [l[0], l[1], l[2]], [l[3]]);
    FoldSingle(op, zero, l[3]);
    assert [l[0], l[1], l[2]] == [l[0], l[1]] + [l[2]];
    FoldAppend(op, zero, [l[0], l[1]], [l[2]]);
    FoldSingle(op, zero, l[2]);
    assert [l[0], l[1]] == [l[0]] + [l[1]];
    FoldAppend(op, zero, [l[0]], [l[1]]);
    FoldSingle(op, zero, l[1]);
    FoldSingle(op, zero, l[0]);
  }

  // ---------------------------------------------------------------------------
  // The unrolled loop
  // ---------------------------------------------------------------------------

  /** The first k statements of a `switch` case body,
      `p1 ^= ptr[index++]; p2 ^= ptr[index++]; ...`: lane j takes word index + j.
      The lanes gain exactly the fold of the words read. */
  function AbsorbCase<W(!new)>(op: (W, W) -> W, zero: W, lanes: seq<W>, words: seq<W>,
                               index: nat, k: nat): (r: seq<W>)
    requires IsXorGroup(op, zero)
    requires |lanes| == LANE_COUNT && k <= LANE_COUNT && index + k <= |words|
    ensures |r| == LANE_COUNT
    ensures Fold(op, zero, r) == op(Fold(op, zero, lanes), Fold(op, zero, words[index..index + k]))
  {
    if k == 0 then
      assert words[index..index] == [];
      lanes
    else
      var prev := AbsorbCase(op, zero, lanes, words, index, k - 1);
      var x := prev[k - 1];
      var w := words[index + k - 1];
      var before := words[index..index + k - 1];
      FoldUpdate(op, zero, prev, k - 1, op(x, w));
      Cancel(op, zero, Fold(op, zero, prev), x, w);
      assert words[index..index + k] == before + [w];
      FoldAppend(op, zero, before, [w]);
      FoldSingle(op, zero, w);
      assert op(op(Fold(op, zero, lanes), Fold(op, zero, before)), w)
          == op(Fold(op, zero, lanes), op(Fold(op, zero, before), w));
      prev[k - 1 := op(x, w)]
  }

  /** The loop from `index` to the end: the lanes end up holding their current
      fold combined with the fold of every word not yet read. */
  function Lanes<W(!new)>(op: (W, W) -> W, zero: W, sw: Switch, words: seq<W>,
                          index: nat, lanes: seq<W>): (r: seq<W>)
    requires IsXorGroup(op, zero)
    requires |lanes| == LANE_COUNT
    requires index <= |words| < U64_MODULUS
    requires sw == Intended || |words| - index != 1
    ensures |r| == LANE_COUNT
    ensures Fold(op, zero, r) == op(Fold(op, zero, lanes), Fold(op, zero, words[index..]))
    decreases |words| - index
  {
    if index == |words| then
      assert words[index..] == [];
      lanes
    else
      var k := ReadCount(CaseOf(sw, index, |words|));
      ReadStepFits(sw, index, |words|);
      var absorbed := AbsorbCase(op, zero, lanes, words, index, k);
      var chunk := words[index..index + k];
      var rest := words[index + k..];
      assert words[index..] == chunk + rest;
      FoldAppend(op, zero, chunk, rest);
      var r := Lanes(op, zero, sw, words, index + k, absorbed);
      assert op(op(Fold(op, zero, lanes), Fold(op, zero, chunk)), Fold(op, zero, rest))
          == op(Fold(op, zero, lanes), op(Fold(op, zero, chunk), Fold(op, zero, rest)));
      r
  }

  lemma FoldOfZeros<W(!new)>(op: (W, W) -> W, zero: W)
    requires IsXorGroup(op, zero)
    ensures Fold(op, zero, [zero, zero, zero, zero]) == zero
  {
    FoldOfFour(op, zero, [zero, zero, zero, zero]);
  }

  /** The lanes start at zero, so after the loop the closing
      `p1 op p2 op p3 op p4` is the fold of the whole block. */
  lemma LanesFromZero<W(!new)>(op: (W, W) -> W, zero: W, sw: Switch, words: seq<W>)
    requires IsXorGroup(op, zero)
    requires |words| < U64_MODULUS
    requires sw == Intended || |words| != 1
    ensures var l := Lanes(op, zero, sw, words, 0, [zero, zero, zero, zero]);
            op(op(op(l[0], l[1]), l[2]), l[3]) == Fold(op, zero, words)
  {
    var zeros := [zero, zero, zero, zero];
    var l := Lanes(op, zero, sw, words, 0, zeros);
    assert words[0..] == words;
    FoldOfFour(op, zero, l);
    FoldOfZeros(op, zero);
    assert op(zero, Fold(op, zero, words)) == op(Fold(op, zero, words), zero);
  }

  lemma LeftUnit<W(!new)>(op: (W, W) -> W, zero: W, a: W)
    requires IsXorGroup(op, zero)
    ensures op(zero, a) == a
  {
    assert op(zero, a) == op(a, zero);
  }

  /** A replacement that leaves the fold unchanged replaces the word by itself. */
  lemma FoldUpdateSame<W(!new)>(op: (W, W) -> W, zero: W, s: seq<W>, k: nat, v: W)
    requires IsXorGroup(op, zero)
    requires k < |s|
    requires Fold(op, zero, s[k := v]) == Fold(op, zero, s)
    ensures v == s[k]
  {
    var f := Fold(op, zero, s);
    FoldUpdate(op, zero, s, k, v);
    LeftUnit(op, zero, s[k]);
    LeftUnit(op, zero, v);
    calc {
      op(s[k], v);
      op(op(zero, s[k]), v);
      op(op(op(f, f), s[k]), v);
      op(op(f, op(f, s[k])), v);
      op(f, op(op(f, s[k]), v));
      op(f, f);
      zero;
    }
    calc {
      v;
      op(zero, v);
      op(op(s[k], s[k]), v);
      op(s[k], op(s[k], v));
      op(s[k], zero);
      s[k];
    }
  }

  /** Two values XORed with the same f differ by the XOR of the values. */
  lemma Tweak<W(!new)>(op: (W, W) -> W, zero: W, f: W, s1: W, s2: W)
    requires IsXorGroup(op, zero)
    ensures op(op(f, s1), op(f, s2)) == op(s1, s2)
  {
    calc {
      op(op(f, s1), op(f, s2));
      { assert op(f, s1) == op(s1, f); }
      op(op(s1, f), op(f, s2));
      op(s1, op(f, op(f, s2)));
      { assert op(f, op(f, s2)) == op(op(f, f), s2); LeftUnit(op, zero, s2); }
      op(s1, s2);
    }
  }

  /** Applying the same value twice undoes it. */
  lemma UndoRight<W(!new)>(op: (W, W) -> W, zero: W, s: W, a: W)
    requires IsXorGroup(op, zero)
    ensures op(op(s, a), s) == a
  {
    calc {
      op(op(s, a), s);
      { assert op(s, a) == op(a, s); }
      op(op(a, s), s);
      op(a, op(s, s));
      a;
    }
  }

  // ---------------------------------------------------------------------------
  // 32- and 64-bit XOR
  // ---------------------------------------------------------------------------

  /** C's `^` on 32- and 64-bit words. */
  function Xor32(a: bv32, b: bv32): bv32 { a ^ b }

  function Xor64(a: bv64, b: bv64): bv64 { a ^ b }

  // Facts about `^` itself are proved on plain variables, where the solver
  // settles them at once; `Xor32Is`/`Xor64Is` move single steps between the
  // named operations and `^`. Everything else is stated with the named
  // operations and follows from the group laws.

  lemma Xor32Is(a: bv32, b: bv32)
    ensures Xor32(a, b) == a ^ b
  {
  }

  lemma Xor64Is(a: bv64, b: bv64)
    ensures Xor64(a, b) == a ^ b
  {
  }

  lemma XorBits32(a: bv32, b: bv32, c: bv32)
    ensures (a ^ b) ^ c == a ^ (b ^ c)
    ensures a ^ b == b ^ a
    ensures a ^ 0 == a && a ^ a == 0
  {
  }

  lemma XorBits64(a: bv64, b: bv64, c: bv64)
    ensures (a ^ b) ^ c == a ^ (b ^ c)
    ensures a ^ b == b ^ a
    ensures a ^ 0 == a && a ^ a == 0
  {
  }

  lemma Xor32Laws(a: bv32, b: bv32, c: bv32)
    ensures Xor32(Xor32(a, b), c) == Xor32(a, Xor32(b, c))
    ensures Xor32(a, b) == Xor32(b, a)
    ensures Xor32(a, 0) == a && Xor32(a, a) == 0
  {
    Xor32Is(a, b);
    Xor32Is(a ^ b, c);
    Xor32Is(b, c);
    Xor32Is(a, b ^ c);
    Xor32Is(b, a);
    Xor32Is(a, 0);
    Xor32Is(a, a);
    XorBits32(a, b, c);
  }

  lemma Xor64Laws(a: bv64, b: bv64, c: bv64)
    ensures Xor64(Xor64(a, b), c) == Xor64(a, Xor64(b, c))
    ensures Xor64(a, b) == Xor64(b, a)
    ensures Xor64(a, 0) == a && Xor64(a, a) == 0
  {
    Xor64Is(a, b);
    Xor64Is(a ^ b, c);
    Xor64Is(b, c);
    Xor64Is(a, b ^ c);
    Xor64Is(b, a);
    Xor64Is(a, 0);
    Xor64Is(a, a);
    XorBits64(a, b, c);
  }

  lemma Xor32IsGroup()
    ensures IsXorGroup(Xor32, 0)
  {
    forall a: bv32, b: bv32, c: bv32 ensures Xor32(Xor32(a, b), c) == Xor32(a, Xor32(b, c)) {
      Xor32Laws(a, b, c);
    }
    forall a: bv32, b: bv32 ensures Xor32(a, b) == Xor32(b, a) {
      Xor32Laws(a, b, 0);
    }
    forall a: bv32 ensures Xor32(a, 0) == a && Xor32(a, a) == 0 {
      Xor32Laws(a, 0, 0);
    }
  }

  lemma Xor64IsGroup()
    ensures IsXorGroup(Xor64, 0)
  {
    forall a: bv64, b: bv64, c: bv64 ensures Xor64(Xor64(a, b), c) == Xor64(a, Xor64(b, c)) {
      Xor64Laws(a, b, c);
    }
    forall a: bv64, b: bv64 ensures Xor64(a, b) == Xor64(b, a) {
      Xor64Laws(a, b, 0);
    }
    forall a: bv64 ensures Xor64(a, 0) == a && Xor64(a, a) == 0 {
      Xor64Laws(a, 0, 0);
    }
  }

  /** The single-accumulator parity: the XOR of all words. */
  function XorFold32(words: seq<bv32>): bv32
  {
    Fold(Xor32, 0, words)
  }

  function XorFold64(words: seq<bv64>): bv64
  {
    Fold(Xor64, 0, words)
  }

  /** Replacing one word changes the parity by exactly the old word XOR the new one. */
  lemma XorFoldUpdate64(words: seq<bv64>, k: nat, v: bv64)
    requires k < |words|
    ensures XorFold64(words[k := v]) == Xor64(Xor64(XorFold64(words), words[k]), v)
  {
    Xor64IsGroup();
    FoldUpdate(Xor64, 0, words, k, v);
  }

  /** A replacement that keeps the parity keeps the word. */
  lemma XorFoldUpdateSame64(words: seq<bv64>, k: nat, v: bv64)
    requires k < |words|
    requires XorFold64(words[k := v]) == XorFold64(words)
    ensures v == words[k]
  {
    Xor64IsGroup();
    FoldUpdateSame(Xor64, 0, words, k, v);
  }

  // ---------------------------------------------------------------------------
  // fparity32 / fparity64
  // ---------------------------------------------------------------------------

  /** `p1 ^ p2 ^ p3 ^ p4` after the loop of fparity32, in the lanes' own
      32-bit width. */
  function LaneParity32(sw: Switch, words: seq<bv32>): (p: bv32)
    requires |words| < U64_MODULUS
    requires sw == Intended || |words| != 1
    ensures p == XorFold32(words)
  {
    Xor32IsGroup();
    var l := Lanes(Xor32, 0, sw, words, 0, [0, 0, 0, 0]);
    LanesFromZero(Xor32, 0, sw, words);
    Xor32(Xor32(Xor32(l[0], l[1]), l[2]), l[3])
  }

  /** `p1 ^ p2 ^ p3 ^ p4` after the loop of fparity64. */
  function LaneParity64(sw: Switch, words: seq<bv64>): (p: bv64)
    requires |words| < U64_MODULUS
    requires sw == Intended || |words| != 1
    ensures p == XorFold64(words)
  {
    Xor64IsGroup();
    var l := Lanes(Xor64, 0, sw, words, 0, [0, 0, 0, 0]);
    LanesFromZero(Xor64, 0, sw, words);
    Xor64(Xor64(Xor64(l[0], l[1]), l[2]), l[3])
  }

  /** The low 32 bits: what assigning a uint64 to a uint32 keeps. Together
      with the high half that the assignment drops, they rebuild x. */
  function Low32(x: bv64): (r: bv32)
    ensures ((x >> 32) << 32) | (r as bv64) == x
  {
    (x & 0xFFFF_FFFF) as bv32
  }

  lemma Low32OfXorBits(a: bv64, b: bv64)
    ensures ((a ^ b) & 0xFFFF_FFFF) as bv32 == ((a & 0xFFFF_FFFF) as bv32) ^ ((b & 0xFFFF_FFFF) as bv32)
  {
  }

  lemma WidenLow32(a: bv32)
    ensures ((a as bv64) & 0xFFFF_FFFF) as bv32 == a
  {
  }

  /** Truncation distributes over XOR. */
  lemma Low32OfXor(a: bv64, b: bv64)
    ensures Low32(Xor64(a, b)) == Xor32(Low32(a), Low32(b))
  {
    Xor64Is(a, b);
    Xor32Is(Low32(a), Low32(b));
    Low32OfXorBits(a, b);
  }

  /** Widening a 32-bit value to 64 bits and truncating it again gives it back. */
  lemma Low32OfWiden(a: bv32)
    ensures Low32(a as bv64) == a
  {
    WidenLow32(a);
  }

  /**
   fparity32 over the `byteLen`-byte buffer whose whole 32-bit words are `words`.
   A length that is not a multiple of 4 returns all-ones before reading anything.
   Otherwise `p1 ^ p2 ^ p3 ^ p4` is formed in 32 bits, widened for `^ seed`,
   and truncated back into the 32-bit result, so only the low half of the seed
   takes effect. With the written selector a one-word block reads past its
   end, so that call is excluded (LaneSchedule.SingleWordOverread).
   */
  function FParity32(sw: Switch, words: seq<bv32>, byteLen: nat, seed: bv64): (r: bv32)
    requires byteLen < U64_MODULUS && |words| == byteLen / 4
    requires sw == Intended || byteLen % 4 != 0 || |words| != 1
    ensures byteLen % 4 != 0 ==> r == ALL_ONES_32
    ensures byteLen % 4 == 0 ==> r == Xor32(XorFold32(words), Low32(seed))
  {
    if byteLen % 4 != 0 then ALL_ONES_32
    else
      var p := LaneParity32(sw, words);
      Low32OfXor(p as bv64, seed);
      Low32OfWiden(p);
      Low32(Xor64(p as bv64, seed))
  }

  /** fparity64 over the `byteLen`-byte buffer whose whole 64-bit words are `words`. */
  function FParity64(sw: Switch, words: seq<bv64>, byteLen: nat, seed: bv64): (r: bv64)
    requires byteLen < U64_MODULUS && |words| == byteLen / 8
    requires sw == Intended || byteLen % 8 != 0 || |words| != 1
    ensures byteLen % 8 != 0 ==> r == ALL_ONES_64
    ensures byteLen % 8 == 0 ==> r == Xor64(XorFold64(words), seed)
  {
    if byteLen % 8 != 0 then ALL_ONES_64
    else Xor64(LaneParity64(sw, words), seed)
  }

  // ---------------------------------------------------------------------------
  // Properties
  // ---------------------------------------------------------------------------

  /** Wherever both selectors may be used they compute the same parity. */
  lemma SelectorsAgree64(words: seq<bv64>, byteLen: nat, seed: bv64)
    requires byteLen < U64_MODULUS && |words| == byteLen / 8
    requires byteLen % 8 != 0 || |words| != 1
    ensures FParity64(AsWritten, words, byteLen, seed) == FParity64(Intended, words, byteLen, seed)
  {
  }

  /** The seed is an XOR tweak: the parities of one aligned block under two
      seeds differ by exactly the XOR of the seeds. */
  lemma SeedLinearity64(sw: Switch, words: seq<bv64>, byteLen: nat, s1: bv64, s2: bv64)
    requires byteLen < U64_MODULUS && |words| == byteLen / 8 && byteLen % 8 == 0
    requires sw == Intended || |words| != 1
    ensures Xor64(FParity64(sw, words, byteLen, s1), FParity64(sw, words, byteLen, s2)) == Xor64(s1, s2)
  {
    Xor64IsGroup();
    Tweak(Xor64, 0, XorFold64(words), s1, s2);
  }

  /** For 32-bit words only the low half of the 64-bit seeds survives. */
  lemma SeedLinearity32(sw: Switch, words: seq<bv32>, byteLen: nat, s1: bv64, s2: bv64)
    requires byteLen < U64_MODULUS && |words| == byteLen / 4 && byteLen % 4 == 0
    requires sw == Intended || |words| != 1
    ensures Xor32(FParity32(sw, words, byteLen, s1), FParity32(sw, words, byteLen, s2)) == Low32(Xor64(s1, s2))
  {
    Xor32IsGroup();
    Tweak(Xor32, 0, XorFold32(words), Low32(s1), Low32(s2));
    Low32OfXor(s1, s2);
  }

  /** An empty block yields the seed. */
  lemma EmptyBlockYieldsSeed64(sw: Switch, seed: bv64)
    ensures FParity64(sw, [], 0, seed) == seed
  {
    Xor64IsGroup();
    LeftUnit(Xor64, 0, seed);
  }

  /** An empty block of 32-bit words yields the low half of the seed. */
  lemma EmptyBlockYieldsSeed32(sw: Switch, seed: bv64)
    ensures FParity32(sw, [], 0, seed) == Low32(seed)
  {
    Xor32IsGroup();
    LeftUnit(Xor32, 0, Low32(seed));
  }

  /** The misalignment answer is an ordinary parity value: for every seed,
      every misaligned call returns what some aligned two-word block returns. */
  lemma MisalignedIsIndistinguishable64(sw: Switch, words: seq<bv64>, byteLen: nat, seed: bv64)
    requires byteLen < U64_MODULUS && |words| == byteLen / 8 && byteLen % 8 != 0
    ensures FParity64(sw, words, byteLen, seed) == FParity64(sw, [Xor64(seed, ALL_ONES_64), 0], 16, seed)
  {
    var w := Xor64(seed, ALL_ONES_64);
    Xor64IsGroup();
    FoldPairWithZero(Xor64, 0, w);
    UndoRight(Xor64, 0, seed, ALL_ONES_64);
    assert FParity64(sw, [w, 0], 16, seed) == Xor64(w, seed);
  }

  lemma MisalignedIsIndistinguishable32(sw: Switch, words: seq<bv32>, byteLen: nat, seed: bv64)
    requires byteLen < U64_MODULUS && |words| == byteLen / 4 && byteLen % 4 != 0
    ensures FParity32(sw, words, byteLen, seed) == FParity32(sw, [Xor32(Low32(seed), ALL_ONES_32), 0], 8, seed)
  {
    Xor32IsGroup();
    FoldPairWithZero(Xor32, 0, Xor32(Low32(seed), ALL_ONES_32));
    UndoRight(Xor32, 0, Low32(seed), ALL_ONES_32);
  }

  /** Seed linearity stops at the alignment check: a misaligned length gives
      the same answer under every seed, so two seeds XOR to 0, not s1 ^ s2. */
  lemma MisalignedIgnoresSeed64(sw: Switch, words: seq<bv64>, byteLen: nat, s1: bv64, s2: bv64)
    requires byteLen < U64_MODULUS && |words| == byteLen / 8 && byteLen % 8 != 0
    ensures FParity64(sw, words, byteLen, s1) == FParity64(sw, words, byteLen, s2)
    ensures Xor64(FParity64(sw, words, byteLen, s1), FParity64(sw, words, byteLen, s2)) == 0
  {
    Xor64Laws(ALL_ONES_64, 0, 0);
  }

  lemma MisalignedIgnoresSeed32(sw: Switch, words: seq<bv32>, byteLen: nat, s1: bv64, s2: bv64)
    requires byteLen < U64_MODULUS && |words| == byteLen / 4 && byteLen % 4 != 0
    ensures FParity32(sw, words, byteLen, s1) == FParity32(sw, words, byteLen, s2)
    ensures Xor32(FParity32(sw, words, byteLen, s1), FParity32(sw, words, byteLen, s2)) == 0
  {
    Xor32Laws(ALL_ONES_32, 0, 0);
  }
}
