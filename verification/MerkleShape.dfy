/** What the two Merkle roots are, level by level loops aside: how the root of a list is made of the roots of its
    parts. These equations determine both roots of every list. */
module MerkleShape {
  import opened Bytes
  import opened Merkle

  function Pow2(k: nat): (p: nat)
    ensures p > 0
  {
    if k == 0 then 1 else 2 * Pow2(k - 1)
  }

  lemma RootOfNoneAndOne(sha: Sha, x: Hash32)
    ensures Root(sha, []) == seq(32, _ => 0) == PromotedRoot(sha, [])
    ensures Root(sha, [x]) == x == PromotedRoot(sha, [x])
  {
  }

  // ---------- pairing a last odd node with itself ----------

  lemma LevelOfParts(sha: Sha, a: seq<Hash32>, b: seq<Hash32>)
    requires |a| % 2 == 0
    ensures NextLevel(sha, a + b) == NextLevel(sha, a) + NextLevel(sha, b)
  {
    var s, half := a + b, |a| / 2;
    forall i | 0 <= i < (|s| + 1) / 2
      ensures NextLevel(sha, s)[i] == (NextLevel(sha, a) + NextLevel(sha, b))[i]
    {
      if i < half {
        assert PairBytes(s, i) == PairBytes(a, i);
      } else {
        assert PairBytes(s, i) == PairBytes(b, i - half);
      }
    }
  }

  /** Two full trees of one height: the root is the hash of the left root followed by the right root. */
  lemma {:induction false} RootOfHalves(sha: Sha, k: nat, a: seq<Hash32>, b: seq<Hash32>)
    requires |a| == Pow2(k) == |b|
    ensures Root(sha, a + b) == sha(Root(sha, a) + Root(sha, b))
    decreases k
  {
    if k == 0 {
      var x: seq<byte>, y: seq<byte> := a[0], b[0];
      assert PairBytes(a + b, 0) == x + y;
      assert NextLevel(sha, a + b) == [sha(x + y)];
    } else {
      LevelOfParts(sha, a, b);
      RootOfHalves(sha, k - 1, NextLevel(sha, a), NextLevel(sha, b));
    }
  }

  /** A list of an odd number of blocks of two to the power k leaves, more than one: its last block counts twice.
      Repeated, this fills any list up to a full tree. */
  lemma {:induction false} RootOfOddBlocks(sha: Sha, k: nat, blocks: nat, hs: seq<Hash32>)
    requires blocks % 2 == 1 && blocks > 1 && |hs| == blocks * Pow2(k)
    ensures |hs| > Pow2(k) && Root(sha, hs) == Root(sha, hs + hs[|hs| - Pow2(k)..])
    decreases k
  {
    MoreThanOne(blocks, Pow2(k));
    var rest, last := hs[..|hs| - Pow2(k)], hs[|hs| - Pow2(k)..];
    assert hs == rest + last;
    if k == 0 {
      LastLeafTwice(sha, hs);
    } else {
      hide NextLevel, PairBytes;
      var p := Pow2(k - 1);
      Halve(blocks, p);
      LevelOfParts(sha, rest, last);
      LevelOfParts(sha, hs, last);
      var next := NextLevel(sha, hs);
      assert next[|next| - p..] == NextLevel(sha, last);
      RootOfOddBlocks(sha, k - 1, blocks, next);
    }
  }

  lemma LastLeafTwice(sha: Sha, hs: seq<Hash32>)
    requires |hs| % 2 == 1 && |hs| > 1
    ensures Root(sha, hs) == Root(sha, hs + hs[|hs| - 1..])
  {
    var rest, x := hs[..|hs| - 1], hs[|hs| - 1];
    assert hs == rest + [x] && hs + hs[|hs| - 1..] == rest + [x, x];
    LevelOfParts(sha, rest, [x]);
    LevelOfParts(sha, rest, [x, x]);
    assert PairBytes([x], 0) == PairBytes([x, x], 0);
    assert NextLevel(sha, [x]) == NextLevel(sha, [x, x]);
  }

  lemma MoreThanOne(n: nat, p: nat)
    requires n > 1 && p > 0
    ensures n * p >= 2 * p
  {
    assert n * p == 2 * p + (n - 2) * p;
  }

  lemma Halve(n: nat, p: nat)
    ensures n * (2 * p) == 2 * (n * p)
  {
  }

  // ---------- promoting a last odd node ----------

  lemma PromotedLevelOfParts(sha: Sha, a: seq<Hash32>, b: seq<Hash32>)
    requires |a| % 2 == 0
    ensures NextPromoted(sha, a + b) == NextPromoted(sha, a) + NextPromoted(sha, b)
  {
    var s, half := a + b, |a| / 2;
    forall i | 0 <= i < (|s| + 1) / 2
      ensures NextPromoted(sha, s)[i] == (NextPromoted(sha, a) + NextPromoted(sha, b))[i]
    {
      if i < half {
        assert PromotedParent(sha, s, i) == PromotedParent(sha, a, i);
      } else {
        assert PromotedParent(sha, s, i) == PromotedParent(sha, b, i - half);
      }
    }
  }

  /** A full tree and what does not exceed it: the root is the hash of the two roots, so that every root divides its
      leaves at the largest power of two below their number. */
  lemma {:induction false} PromotedRootOfParts(sha: Sha, k: nat, a: seq<Hash32>, b: seq<Hash32>)
    requires |a| == Pow2(k) && 0 < |b| <= Pow2(k)
    ensures PromotedRoot(sha, a + b) == sha(PromotedRoot(sha, a) + PromotedRoot(sha, b))
    decreases k
  {
    if k == 0 {
      var x: seq<byte>, y: seq<byte> := a[0], b[0];
      assert FullPair(a + b, 0) == x + y;
      assert NextPromoted(sha, a + b) == [sha(x + y)];
    } else {
      PromotedLevelOfParts(sha, a, b);
      PromotedRootOfParts(sha, k - 1, NextPromoted(sha, a), NextPromoted(sha, b));
    }
  }
}
