/**
 The control part of the unrolled parity loop: which word indices the loop of
 fparity32/fparity64 reads, in which order. The loop keeps a 64-bit unsigned
 `index`, picks a `switch` case from `index` and `index_end`, and case `c` reads
 `c` consecutive words (case 0 reads four).

 Two selectors are modelled: the one the code is written with, whose unsigned
 subtraction wraps, and the remaining-word count the unrolling evidently intends.
 */
module LaneSchedule {

  /** 2^64: the modulus of the unsigned 64-bit `index` arithmetic. */
  const U64_MODULUS: int := 0x1_0000_0000_0000_0000

  /** Which selector expression drives the `switch` of the unrolled loop. */
  datatype Switch =
    | AsWritten  // `(index - index_end) % 4` on uint64
    | Intended   // `(index_end - index) % 4`, the words still to read

  /** The case label the `switch` selects at `index`. While words remain, the
      written selector picks the complement of the remaining count modulo 4
      rather than the remaining count itself. */
  function CaseOf(sw: Switch, index: nat, indexEnd: nat): (c: nat)
    ensures c < 4
    ensures sw == AsWritten && index < indexEnd < U64_MODULUS ==>
              c == (4 - (indexEnd - index) % 4) % 4
  {
    match sw
    case AsWritten => ((index - indexEnd) % U64_MODULUS) % 4
    case Intended => (indexEnd - index) % 4
  }

  /** How many words case `c` reads: case 0 reads four, case c > 0 reads c. */
  function ReadCount(c: nat): nat
  {
    if c == 0 then 4 else c
  }

  /** The indices lo, lo+1, ..., hi-1. */
  function Range(lo: nat, hi: nat): (r: seq<nat>)
    requires lo <= hi
    ensures |r| == hi - lo
    ensures forall k :: 0 <= k < |r| ==> r[k] == lo + k
  {
    seq(hi - lo, k requires 0 <= k < hi - lo => lo + k)
  }

  lemma RangeSplit(lo: nat, mid: nat, hi: nat)
    requires lo <= mid <= hi
    ensures Range(lo, mid) + Range(mid, hi) == Range(lo, hi)
  {
  }

  /** Every word index the loop reads from `index` on, in reading order;
      the loop stops once `index` is no longer below `indexEnd`. No read goes
      more than one word past the last word, `indexEnd - 1`: at most two words
      past the end. */
  function ReadIndices(sw: Switch, index: nat, indexEnd: nat): (r: seq<nat>)
    requires indexEnd < U64_MODULUS
    ensures forall k :: 0 <= k < |r| ==> index <= r[k] < indexEnd + 2
    decreases indexEnd - index
  {
    if index >= indexEnd then []
    else
      var k := ReadCount(CaseOf(sw, index, indexEnd));
      ReadCountBound(sw, index, indexEnd);
      Range(index, index + k) + ReadIndices(sw, index + k, indexEnd)
  }

  /** A pass reads at most two words more than remain: only the written
      selector with one word left overshoots, and then by exactly two. */
  lemma ReadCountBound(sw: Switch, index: nat, indexEnd: nat)
    requires index < indexEnd < U64_MODULUS
    ensures ReadCount(CaseOf(sw, index, indexEnd)) <= indexEnd - index + 2
  {
    if sw == AsWritten && indexEnd - index == 1 {
      assert CaseOf(sw, index, indexEnd) == 3;
    } else {
      ReadStepFits(sw, index, indexEnd);
    }
  }

  /** One pass of the loop body: it reads at least one word, never past the
      last word, and (for the written selector) never leaves exactly one word
      behind, provided it did not start with exactly one word left. */
  lemma ReadStepFits(sw: Switch, index: nat, indexEnd: nat)
    requires index < indexEnd < U64_MODULUS
    requires sw == Intended || indexEnd - index != 1
    ensures 1 <= ReadCount(CaseOf(sw, index, indexEnd)) <= indexEnd - index
    ensures sw == AsWritten ==>
              indexEnd - index - ReadCount(CaseOf(sw, index, indexEnd)) != 1
  {
    var rem := indexEnd - index;
    if sw == AsWritten {
      assert (index - indexEnd) % U64_MODULUS == U64_MODULUS - rem;
      assert (U64_MODULUS - rem) % 4 == (4 - rem % 4) % 4;
    }
  }

  /** From any loop state that does not have exactly one word left (written
      selector), the loop reads each remaining word exactly once, in order. */
  lemma {:induction false} ReadsRemainder(sw: Switch, index: nat, indexEnd: nat)
    requires index <= indexEnd < U64_MODULUS
    requires sw == Intended || indexEnd - index != 1
    ensures ReadIndices(sw, index, indexEnd) == Range(index, indexEnd)
    decreases indexEnd - index
  {
    if index < indexEnd {
      var k := ReadCount(CaseOf(sw, index, indexEnd));
      ReadStepFits(sw, index, indexEnd);
      ReadsRemainder(sw, index + k, indexEnd);
      RangeSplit(index, index + k, indexEnd);
    }
  }

  /** The loop as written reads every word of an n-word block exactly once,
      in order and within bounds, if and only if n is not 1. */
  lemma AsWrittenReadsEachWordOnce(n: nat)
    requires n < U64_MODULUS
    ensures n != 1 <==> ReadIndices(AsWritten, 0, n) == Range(0, n)
  {
    if n == 1 {
      SingleWordOverread();
    } else {
      ReadsRemainder(AsWritten, 0, n);
    }
  }

  /** A one-word block: the wrapped selector yields case 3, which reads the
      word and the two words after the end of the block. */
  lemma SingleWordOverread()
    ensures ReadIndices(AsWritten, 0, 1) == [0, 1, 2]
  {
    assert CaseOf(AsWritten, 0, 1) == 3;
    assert Range(0, 3) == [0, 1, 2];
  }

  /** With the intended selector every block size is read exactly once, in
      order and within bounds. */
  lemma IntendedReadsEachWordOnce(n: nat)
    requires n < U64_MODULUS
    ensures ReadIndices(Intended, 0, n) == Range(0, n)
  {
    ReadsRemainder(Intended, 0, n);
  }
}
