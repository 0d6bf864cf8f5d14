/**
 The stripe substitution corrector of the demonstration program. The block is a
 page of 64-bit stripes whose XOR parity and hash were recorded while it was
 intact. For each stripe in turn it overwrites the stripe with the recorded
 parity, then with the parity of the block so modified (seed 0), which is the
 value that makes the block's parity equal the recorded one again. It keeps the
 candidate if the block's hash matches the recorded hash and restores the stripe
 otherwise.

 The hash is a parameter; the page is a sequence updated in place.
 */
module Stripe {
  import opened LaneSchedule
  import opened Parity

  /** The candidate for stripe i: forced to the recorded parity and then to the
      parity of the forced block. */
  function Substitute(sw: Switch, block: seq<bv64>, i: nat, origParity: bv64): (r: seq<bv64>)
    requires i < |block| && |block| * 8 < U64_MODULUS
    requires sw == Intended || |block| != 1
    ensures |r| == |block|
    ensures forall k :: 0 <= k < |block| && k != i ==> r[k] == block[k]
    ensures XorFold64(r) == origParity
  {
    var forced := block[i := origParity];
    var x := FParity64(sw, forced, |block| * 8, 0);
    Xor64IsGroup();
    Xor64Laws(XorFold64(forced), 0, 0);
    XorFoldUpdate64(forced, i, x);
    UndoRight(Xor64, 0, x, origParity);
    forced[i := x]
  }

  /** If the block differs from the original only in stripe k, substituting
      stripe k against the original's parity gives the original back. */
  lemma SubstitutionReconstructs(sw: Switch, original: seq<bv64>, block: seq<bv64>, k: nat)
    requires |original| == |block| && k < |block| && |block| * 8 < U64_MODULUS
    requires sw == Intended || |block| != 1
    requires forall m :: 0 <= m < |block| && m != k ==> block[m] == original[m]
    ensures Substitute(sw, block, k, FParity64(sw, original, |original| * 8, 0)) == original
  {
    var p := FParity64(sw, original, |original| * 8, 0);
    Xor64Laws(XorFold64(original), 0, 0);
    var r := Substitute(sw, block, k, p);
    assert r == original[k := r[k]];
    XorFoldUpdateSame64(original, k, r[k]);
  }

  /** Candidate k restores the recorded hash. */
  predicate Repairs(sw: Switch, block: seq<bv64>, k: nat, origParity: bv64, origHash: bv64,
                    hash: seq<bv64> -> bv64)
    requires k < |block| && |block| * 8 < U64_MODULUS
    requires sw == Intended || |block| != 1
  {
    hash(Substitute(sw, block, k, origParity)) == origHash
  }

  /** What the loop leaves behind: stripe i is the first candidate that
      restores the hash and the block holds it, or no candidate does
      (i == |block|) and the block is as it was. */
  predicate StripeOutcome(sw: Switch, block: seq<bv64>, origParity: bv64, origHash: bv64,
                          hash: seq<bv64> -> bv64, repaired: seq<bv64>, i: nat)
    requires |block| * 8 < U64_MODULUS
    requires sw == Intended || |block| != 1
  {
    && i <= |block|
    && (forall k :: 0 <= k < i ==> !Repairs(sw, block, k, origParity, origHash, hash))
    && (i < |block| ==> Repairs(sw, block, i, origParity, origHash, hash)
                        && repaired == Substitute(sw, block, i, origParity))
    && (i == |block| ==> repaired == block)
  }

  /** The loop of main over the stripes of the page. */
  method StripeCorrect(sw: Switch, block: seq<bv64>, origParity: bv64, origHash: bv64,
                       hash: seq<bv64> -> bv64)
    returns (repaired: seq<bv64>, i: nat)
    requires |block| * 8 < U64_MODULUS
    requires sw == Intended || |block| != 1
    ensures StripeOutcome(sw, block, origParity, origHash, hash, repaired, i)
    ensures hash(repaired) == origHash || repaired == block
  {
    var ptr := block;
    i := 0;
    while i < |block|
      invariant i <= |block|
      invariant ptr == block
      invariant forall k :: 0 <= k < i ==> !Repairs(sw, block, k, origParity, origHash, hash)
    {
      var backup := ptr[i];
      ptr := ptr[i := origParity];
      ptr := ptr[i := FParity64(sw, ptr, |block| * 8, 0)];
      assert ptr == Substitute(sw, block, i, origParity);
      if hash(ptr) == origHash {
        return ptr, i;
      }
      ptr := ptr[i := backup];
      assert ptr == block;
      i := i + 1;
    }
    repaired := ptr;
  }

  /**
   Single-stripe corruption with the recorded parity and hash of the original:
   the corrector stops no later than the corrupted stripe and leaves a block
   with the original's hash; when no earlier candidate collides on the hash it
   stops exactly there and returns the original.
   */
  lemma StripeRecoversSingleCorruption(sw: Switch, original: seq<bv64>, block: seq<bv64>, k: nat,
                                       hash: seq<bv64> -> bv64, repaired: seq<bv64>, i: nat)
    requires |original| == |block| && k < |block| && |block| * 8 < U64_MODULUS
    requires sw == Intended || |block| != 1
    requires forall m :: 0 <= m < |block| && m != k ==> block[m] == original[m]
    requires StripeOutcome(sw, block, FParity64(sw, original, |original| * 8, 0), hash(original), hash,
                           repaired, i)
    ensures i <= k && hash(repaired) == hash(original)
    ensures (forall m :: 0 <= m < k ==>
               !Repairs(sw, block, m, FParity64(sw, original, |original| * 8, 0), hash(original), hash))
            ==> i == k && repaired == original
  {
    var p := FParity64(sw, original, |original| * 8, 0);
    SubstitutionReconstructs(sw, original, block, k);
    assert Repairs(sw, block, k, p, hash(original), hash);
  }

  /** On an intact block the first candidate already is the block itself, so
      the loop stops at stripe 0 and changes nothing. */
  lemma StripeLeavesIntactBlock(sw: Switch, original: seq<bv64>, hash: seq<bv64> -> bv64,
                                repaired: seq<bv64>, i: nat)
    requires |original| * 8 < U64_MODULUS
    requires sw == Intended || |original| != 1
    requires StripeOutcome(sw, original, FParity64(sw, original, |original| * 8, 0), hash(original), hash,
                           repaired, i)
    ensures i == 0 && repaired == original
  {
    if |original| > 0 {
      SubstitutionReconstructs(sw, original, original, 0);
      assert Repairs(sw, original, 0, FParity64(sw, original, |original| * 8, 0), hash(original), hash);
    }
  }
}
