/**
 fields_seen: one bit per required field, in 32-bit words, and the final test
 that every one of the first 64 required fields was seen.
 */
module PbRequired {
  import opened Common
  import opened Bits
  import opened PbWire
  import opened PbSchema

  ghost predicate AllSet(w: nat, n: nat) {
    forall k: nat | k < n :: Bit(w, k)
  }

  /** A word without bits from `n` on equals the mask of `n` ones exactly when all of them are set. */
  lemma {:induction false} MaskTest(w: nat, n: nat)
    requires forall k: nat | k >= n :: !Bit(w, k)
    ensures w == Pow2(n) - 1 <==> AllSet(w, n)
    decreases n
  {
    if n == 0 {
      if w > 0 { HasBit(w); }
    } else {
      Pow2Double(n - 1);
      var h := w / 2;
      forall k: nat | k >= n - 1 ensures !Bit(h, k) { assert !Bit(w, k + 1); }
      MaskTest(h, n - 1);
      if AllSet(w, n) {
        assert Bit(w, 0);
        forall k: nat | k < n - 1 ensures Bit(h, k) { assert Bit(w, k + 1); }
        assert AllSet(h, n - 1);
      }
      if w == Pow2(n) - 1 {
        OddHalf(w, Pow2(n - 1));
        assert AllSet(h, n - 1);
        forall k: nat | k < n ensures Bit(w, k) {
          if k > 0 { assert Bit(h, k - 1); }
        }
      }
    }
  }

  lemma OddHalf(w: nat, p: nat)
    requires p >= 1 && w == 2 * p - 1
    ensures w % 2 == 1 && w / 2 == p - 1
  {
  }

  lemma {:induction false} HasBit(w: nat)
    requires w > 0
    ensures exists k: nat :: Bit(w, k)
  {
    if w % 2 == 1 {
      assert Bit(w, 0);
    } else {
      HasBit(w / 2);
      var k: nat :| Bit(w / 2, k);
      assert Bit(w, k + 1);
    }
  }

  class FieldsSeen {
    const words: array<nat>
    ghost var seen: set<nat>

    ghost predicate Valid()
      reads this, words
    {
      && words.Length == 2
      && (forall k | k in seen :: 0 <= k < PB_MAX_REQUIRED_FIELDS)
      && (forall k: nat | k < 32 :: Bit(words[0], k) <==> k in seen)
      && (forall k: nat | k < 32 :: Bit(words[1], k) <==> k + 32 in seen)
      && (forall k: nat | k >= 32 :: !Bit(words[0], k) && !Bit(words[1], k))
    }

    constructor ()
      ensures Valid() && fresh(words) && seen == {}
    {
      words := new nat[2](_ => 0);
      seen := {};
      new;
      forall k: nat ensures !Bit(words[0], k) && !Bit(words[1], k) { NoBits(k); }
    }

    /** fields_seen[i >> 5] |= 1 << (i & 31). */
    method Mark(i: nat)
      requires Valid() && i < PB_MAX_REQUIRED_FIELDS
      modifies this, words
      ensures Valid() && seen == old(seen) + {i}
    {
      var w := words[i / 32];
      words[i / 32] := BitOr(w, Pow2(i % 32));
      seen := seen + {i};
      forall k: nat ensures Bit(words[i / 32], k) <==> Bit(w, k) || k == i % 32 {
        BitOfOr(w, Pow2(i % 32), k);
        BitOfPower(i % 32, k);
      }
    }

    /** The final check, for `count` required fields of which at most 64 are tracked. */
    method Complete(count: nat) returns (ok: bool)
      requires Valid() && count <= PB_MAX_REQUIRED_FIELDS && forall k | k in seen :: k < count
      ensures ok <==> forall k | 0 <= k < count :: k in seen
    {
      var i := 0;
      while i < count / 32
        invariant 0 <= i <= count / 32
        invariant forall k | 0 <= k < 32 * i :: k in seen
      {
        MaskTest(words[i], 32);
        if words[i] != Pow2(32) - 1 {
          var k: nat :| k < 32 && !Bit(words[i], k);
          assert 32 * i + k !in seen;
          return false;
        }
        assert AllSet(words[i], 32);
        forall k | 32 * i <= k < 32 * i + 32 ensures k in seen { assert Bit(words[i], k - 32 * i); }
        i := i + 1;
      }
      if count % 32 != 0 {
        var n := count % 32;
        forall k: nat | k >= n ensures !Bit(words[i], k) { assert 32 * i + k !in seen; }
        MaskTest(words[i], n);
        if words[i] != Pow2(n) - 1 {
          var k: nat :| k < n && !Bit(words[i], k);
          assert 32 * i + k !in seen;
          return false;
        }
        assert AllSet(words[i], n);
        forall k | 32 * i <= k < count ensures k in seen { assert Bit(words[i], k - 32 * i); }
      }
      return true;
    }
  }
}
