/** Merkle roots over hash lists: the variant that pairs a last odd node with itself (blocks, share pools,
    epoch shares) and the variant that promotes it (the persistent pool). `sha` is any function from byte
    strings to hashes; where a root is to determine its leaves, no two different strings among those hashed
    in the two trees may have the same hash. */
module Merkle {
  import opened Bytes

  type Sha = seq<byte> -> Hash32

  ghost predicate CollisionFree(sha: Sha, inputs: set<seq<byte>>) {
    forall x, y :: x in inputs && y in inputs && sha(x) == sha(y) ==> x == y
  }

  ghost predicate Distinct<T(!new)>(s: seq<T>) {
    forall i, j :: 0 <= i < j < |s| ==> s[i] != s[j]
  }

  function Join(a: seq<byte>, b: seq<byte>): seq<byte> { a + b }

  // ---------- the duplicating tree ----------

  /** The bytes hashed for pair i of a level; a last node without a partner is paired with itself. */
  function PairBytes(hs: seq<Hash32>, i: nat): (s: seq<byte>)
    requires 2 * i < |hs|
    ensures |s| == 64
  {
    Join(hs[2 * i], hs[if 2 * i + 1 < |hs| then 2 * i + 1 else 2 * i])
  }

  function Parent(sha: Sha, hs: seq<Hash32>, i: nat): Hash32
    requires 2 * i < |hs|
  {
    sha(PairBytes(hs, i))
  }

  function NextLevel(sha: Sha, hs: seq<Hash32>): (next: seq<Hash32>)
    ensures |next| == (|hs| + 1) / 2
  {
    seq((|hs| + 1) / 2, i requires 0 <= i < (|hs| + 1) / 2 => Parent(sha, hs, i))
  }

  function Root(sha: Sha, hs: seq<Hash32>): Hash32
    decreases |hs|
  {
    if hs == [] then ZeroHash() else if |hs| == 1 then hs[0] else Root(sha, NextLevel(sha, hs))
  }

  /** The loop of the source: rebuild the list level by level until one hash is left. */
  method RootLoop(sha: Sha, leaves: seq<Hash32>) returns (root: Hash32)
    ensures root == Root(sha, leaves)
  {
    if leaves == [] {
      return ZeroHash();
    }
    var hashes := leaves;
    while |hashes| > 1
      invariant hashes != [] && Root(sha, hashes) == Root(sha, leaves)
      decreases |hashes|
    {
      var next: seq<Hash32> := [];
      var k := 0;
      while 2 * k < |hashes|
        invariant k <= (|hashes| + 1) / 2
        invariant next == NextLevel(sha, hashes)[..k]
      {
        var data: seq<byte> := hashes[2 * k];
        if 2 * k + 1 < |hashes| {
          data := data + hashes[2 * k + 1];
        } else {
          data := data + hashes[2 * k];
        }
        next := next + [sha(data)];
        k := k + 1;
      }
      assert next == NextLevel(sha, hashes);
      hashes := next;
    }
    return hashes[0];
  }

  ghost function LevelInputs(hs: seq<Hash32>): set<seq<byte>> {
    set i | 0 <= i < (|hs| + 1) / 2 :: PairBytes(hs, i)
  }

  /** Every byte string hashed on the way from the leaves to the root. */
  ghost function HashedInputs(sha: Sha, hs: seq<Hash32>): set<seq<byte>>
    decreases |hs|
  {
    if |hs| <= 1 then {} else LevelInputs(hs) + HashedInputs(sha, NextLevel(sha, hs))
  }

  function Height(n: nat): nat {
    if n <= 1 then 0 else 1 + Height((n + 1) / 2)
  }

  lemma PairsEqual(a: seq<Hash32>, b: seq<Hash32>, i: nat, j: nat)
    requires 2 * i < |a| && 2 * j < |b| && PairBytes(a, i) == PairBytes(b, j)
    ensures a[2 * i] == b[2 * j]
    ensures a[if 2 * i + 1 < |a| then 2 * i + 1 else 2 * i] == b[if 2 * j + 1 < |b| then 2 * j + 1 else 2 * j]
  {
    assert PairBytes(a, i)[..32] == a[2 * i] && PairBytes(b, j)[..32] == b[2 * j];
    assert PairBytes(a, i)[32..] == a[if 2 * i + 1 < |a| then 2 * i + 1 else 2 * i];
    assert PairBytes(b, j)[32..] == b[if 2 * j + 1 < |b| then 2 * j + 1 else 2 * j];
  }

  lemma LevelElements(sha: Sha, a: seq<Hash32>, b: seq<Hash32>, i: nat)
    requires CollisionFree(sha, LevelInputs(a) + LevelInputs(b))
    requires NextLevel(sha, a) == NextLevel(sha, b) && 2 * i < |a|
    ensures 2 * i < |b| && PairBytes(a, i) == PairBytes(b, i)
  {
    assert |NextLevel(sha, a)| == |NextLevel(sha, b)|;
    assert NextLevel(sha, a)[i] == NextLevel(sha, b)[i];
    assert PairBytes(a, i) in LevelInputs(a) && PairBytes(b, i) in LevelInputs(b);
  }

  /** One level up determines the level below it, when the number of its nodes is known. */
  lemma LevelInjective(sha: Sha, a: seq<Hash32>, b: seq<Hash32>)
    requires CollisionFree(sha, LevelInputs(a) + LevelInputs(b))
    requires NextLevel(sha, a) == NextLevel(sha, b) && |a| == |b|
    ensures a == b
  {
    forall k | 0 <= k < |a| ensures a[k] == b[k] {
      LevelElements(sha, a, b, k / 2);
      PairsEqual(a, b, k / 2, k / 2);
      assert k == 2 * (k / 2) || k == 2 * (k / 2) + 1;
    }
  }

  /** For lists of one length, duplicates do not matter. */
  lemma {:induction false} RootDeterminesLeavesOfKnownNumber(sha: Sha, a: seq<Hash32>, b: seq<Hash32>)
    requires |a| == |b|
    requires CollisionFree(sha, HashedInputs(sha, a) + HashedInputs(sha, b))
    ensures Root(sha, a) == Root(sha, b) <==> a == b
    decreases |a|
  {
    if |a| > 1 {
      RootDeterminesLeavesOfKnownNumber(sha, NextLevel(sha, a), NextLevel(sha, b));
      if Root(sha, a) == Root(sha, b) {
        LevelInjective(sha, a, b);
      }
    }
  }

  // ---------- exactly which lists share a root ----------

  /** The number of leaves of the full tree over n leaves, two to the power of its height. */
  function Width(n: nat): (w: nat)
    ensures w > 0
  {
    if n <= 1 then 1 else 2 * Width((n + 1) / 2)
  }

  /** The leaf at place i of the full tree: a missing right child is its left sibling again, on every level. */
  function Slot(n: nat, i: nat): (k: nat)
    requires n > 0 && i < Width(n)
    ensures k < n
  {
    if n == 1 then 0
    else
      var left := 2 * Slot((n + 1) / 2, i / 2);
      if i % 2 == 1 && left + 1 < n then left + 1 else left
  }

  /** The leaves of the full tree that a list stands for. */
  function Filled<T>(s: seq<T>): (f: seq<T>)
    requires s != []
    ensures |f| == Width(|s|)
  {
    seq(Width(|s|), i requires 0 <= i < Width(|s|) => s[Slot(|s|, i)])
  }

  lemma FilledLevel(sha: Sha, hs: seq<Hash32>)
    requires |hs| > 1
    ensures NextLevel(sha, Filled(hs)) == Filled(NextLevel(sha, hs))
    ensures LevelInputs(Filled(hs)) == LevelInputs(hs)
  {
    var n, f := |hs|, Filled(hs);
    forall i | 0 <= i < |f| / 2 ensures PairBytes(f, i) == PairBytes(hs, Slot((n + 1) / 2, i)) {
      assert 2 * i / 2 == i && (2 * i + 1) / 2 == i;
    }
    forall j | 0 <= j < (n + 1) / 2 ensures PairBytes(hs, j) in LevelInputs(f) {
      var i := SomePlace((n + 1) / 2, j);
      assert PairBytes(f, i) == PairBytes(hs, j);
    }
    assert forall i :: 0 <= i < |f| / 2 ==> PairBytes(f, i) in LevelInputs(hs);
  }

  /** Every leaf has a place in the full tree. */
  lemma {:induction false} SomePlace(n: nat, j: nat) returns (i: nat)
    requires j < n
    ensures i < Width(n) && Slot(n, i) == j
    decreases n
  {
    if n == 1 {
      i := 0;
    } else {
      var parent := SomePlace((n + 1) / 2, j / 2);
      i := 2 * parent + j % 2;
      assert i / 2 == parent && i % 2 == j % 2;
    }
  }

  /** Wherever a leaf stands, every leaf behind it in the list stands somewhere behind that place too. */
  lemma {:induction false} LaterPlace(n: nat, i: nat, j: nat) returns (k: nat)
    requires n > 0 && i < Width(n) && Slot(n, i) < j < n
    ensures i < k < Width(n) && Slot(n, k) == j
    decreases n
  {
    var half := (n + 1) / 2;
    if Slot(half, i / 2) < j / 2 {
      var parent := LaterPlace(half, i / 2, j / 2);
      k := 2 * parent + j % 2;
      assert k / 2 == parent && k % 2 == j % 2;
    } else {
      k := i + 1;
      assert i % 2 == 0 && k / 2 == i / 2;
    }
  }

  /** A list has the root of the full tree it stands for, whatever the hash function. */
  lemma {:induction false} RootOfFilled(sha: Sha, hs: seq<Hash32>)
    requires hs != []
    ensures Root(sha, hs) == Root(sha, Filled(hs))
    ensures HashedInputs(sha, Filled(hs)) == HashedInputs(sha, hs)
    decreases |hs|
  {
    if |hs| == 1 {
      assert Filled(hs) == hs;
    } else {
      FilledLevel(sha, hs);
      RootOfFilled(sha, NextLevel(sha, hs));
    }
  }

  /** The nodes k levels above the leaves. */
  function Up(sha: Sha, k: nat, hs: seq<Hash32>): seq<Hash32> {
    if k == 0 then hs else Up(sha, k - 1, NextLevel(sha, hs))
  }

  lemma {:induction false} WidthIsPower(m: nat, n: nat)
    requires Height(m) == Height(n)
    ensures Width(m) == Width(n)
    decreases m
  {
    if m > 1 { WidthIsPower((m + 1) / 2, (n + 1) / 2); }
  }

  lemma {:induction false} RootOfUp(sha: Sha, k: nat, hs: seq<Hash32>)
    requires hs != [] && k <= Height(|hs|)
    ensures Up(sha, k, hs) != [] && Height(|Up(sha, k, hs)|) == Height(|hs|) - k
    ensures Root(sha, Up(sha, k, hs)) == Root(sha, hs)
    ensures HashedInputs(sha, Up(sha, k, hs)) <= HashedInputs(sha, hs)
  {
    if k > 0 { RootOfUp(sha, k - 1, NextLevel(sha, hs)); }
  }

  /** Exactly which lists share a root, whatever their lengths: the lower tree, filled up, has for leaves the nodes
      of the higher one at its own height, filled up. For trees of one height these are the leaves themselves. */
  lemma RootsEqualIff(sha: Sha, a: seq<Hash32>, b: seq<Hash32>)
    requires a != [] && b != [] && Height(|a|) <= Height(|b|)
    requires CollisionFree(sha, HashedInputs(sha, a) + HashedInputs(sha, b))
    ensures var top := Up(sha, Height(|b|) - Height(|a|), b);
      top != [] && (Root(sha, a) == Root(sha, b) <==> Filled(a) == Filled(top))
  {
    hide Root, HashedInputs, Filled, Height;
    var top := Up(sha, Height(|b|) - Height(|a|), b);
    RootOfUp(sha, Height(|b|) - Height(|a|), b);
    RootOfFilled(sha, a);
    RootOfFilled(sha, top);
    WidthIsPower(|a|, |top|);
    RootDeterminesLeavesOfKnownNumber(sha, Filled(a), Filled(top));
  }

  lemma {:induction false} SlotOfFirst(n: nat, i: nat)
    requires i < n
    ensures i < Width(n) && Slot(n, i) == i
    decreases n
  {
    if n > 1 { SlotOfFirst((n + 1) / 2, i / 2); }
  }

  lemma FilledAt<T>(a: seq<T>, b: seq<T>, i: nat)
    requires a != [] && i < |b| && Filled(a) == Filled(b)
    ensures i < Width(|a|) && a[Slot(|a|, i)] == b[i]
    ensures i < |a| ==> a[i] == b[i]
  {
    SlotOfFirst(|b|, i);
    if i < |a| { SlotOfFirst(|a|, i); }
    assert Filled(a)[i] == Filled(b)[i];
  }

  lemma FilledOfDistinct<T(!new)>(a: seq<T>, b: seq<T>)
    requires a != [] && |a| <= |b| && Distinct(b) && Filled(a) == Filled(b)
    ensures a == b
  {
    hide Filled;
    forall i | 0 <= i < |a| ensures a[i] == b[i] { FilledAt(a, b, i); }
    if |a| < |b| { FilledAt(a, b, |a|); }
  }

  /** Two duplicate-free leaf lists with trees of the same height have the same root exactly when they are the
      same list, although odd levels duplicate their last node. */
  lemma RootDeterminesDistinctLeaves(sha: Sha, a: seq<Hash32>, b: seq<Hash32>)
    requires Distinct(a) && Distinct(b) && a != [] && b != []
    requires Height(|a|) == Height(|b|)
    requires CollisionFree(sha, HashedInputs(sha, a) + HashedInputs(sha, b))
    ensures Root(sha, a) == Root(sha, b) <==> a == b
  {
    hide Root, HashedInputs, Filled, Distinct;
    RootsEqualIff(sha, a, b);
    if Root(sha, a) == Root(sha, b) {
      if |a| <= |b| { FilledOfDistinct(a, b); } else { FilledOfDistinct(b, a); }
    }
  }

  // ---------- leaves that cannot be inner nodes ----------

  /** Every leaf is the hash of a string of the set that is no pair of nodes. */
  ghost predicate LeavesOf(sha: Sha, hs: seq<Hash32>, sources: set<seq<byte>>) {
    forall i :: 0 <= i < |hs| ==> HashOfSome(sha, hs[i], sources)
  }

  ghost predicate HashOfSome(sha: Sha, h: Hash32, sources: set<seq<byte>>) {
    exists x :: x in sources && |x| != 64 && sha(x) == h
  }

  lemma {:induction false} UpIsHashed(sha: Sha, k: nat, hs: seq<Hash32>, j: nat) returns (x: seq<byte>)
    requires hs != [] && 0 < k <= Height(|hs|) && j < |Up(sha, k, hs)|
    ensures x in HashedInputs(sha, hs) && |x| == 64 && sha(x) == Up(sha, k, hs)[j]
  {
    var next := NextLevel(sha, hs);
    if k == 1 {
      x := PairBytes(hs, j);
      assert x in LevelInputs(hs);
    } else {
      x := UpIsHashed(sha, k - 1, next, j);
    }
  }

  lemma LowerLeavesDiffer(sha: Sha, a: seq<Hash32>, b: seq<Hash32>, sources: set<seq<byte>>)
    requires a != [] && b != [] && Height(|a|) < Height(|b|) && LeavesOf(sha, a, sources)
    requires CollisionFree(sha, HashedInputs(sha, a) + HashedInputs(sha, b) + sources)
    ensures Root(sha, a) != Root(sha, b)
  {
    hide Root, HashedInputs, Filled, Height, Up, PairBytes;
    var k := Height(|b|) - Height(|a|);
    RootsEqualIff(sha, a, b);
    var x := UpIsHashed(sha, k, b, 0);
    assert HashOfSome(sha, a[0], sources);
    FirstFilled(a);
    FirstFilled(Up(sha, k, b));
  }

  lemma FirstFilled<T>(s: seq<T>)
    requires s != []
    ensures Filled(s)[0] == s[0]
  {
    SlotOfFirst(|s|, 0);
  }

  /** When no leaf can be an inner node, two lists share a root exactly when they fill the same full tree. */
  lemma RootsEqualIffSameTree(sha: Sha, a: seq<Hash32>, b: seq<Hash32>, sources: set<seq<byte>>)
    requires a != [] && b != [] && LeavesOf(sha, a, sources) && LeavesOf(sha, b, sources)
    requires CollisionFree(sha, HashedInputs(sha, a) + HashedInputs(sha, b) + sources)
    ensures Root(sha, a) == Root(sha, b) <==> Height(|a|) == Height(|b|) && Filled(a) == Filled(b)
  {
    hide Root, HashedInputs, Filled, LeavesOf;
    if Height(|a|) < Height(|b|) {
      LowerLeavesDiffer(sha, a, b, sources);
    } else if Height(|b|) < Height(|a|) {
      LowerLeavesDiffer(sha, b, a, sources);
    } else {
      RootsEqualIff(sha, a, b);
    }
  }

  /** Neither condition can be dropped: a repeated last leaf, or a leaf that is itself an inner node, gives two
      different lists with one root under every hash function. */
  lemma RootIsNotInjective(sha: Sha, x: Hash32, y: Hash32, z: Hash32)
    ensures Root(sha, [x, y, z]) == Root(sha, [x, y, z, z])
    ensures Root(sha, [x, y]) == Root(sha, [sha(Join(x, y))])
  {
    var p, q := sha(Join(x, y)), sha(Join(z, z));
    var a, b := [x, y, z], [x, y, z, z];
    assert PairBytes(a, 0) == PairBytes(b, 0) == Join(x, y) && PairBytes(a, 1) == PairBytes(b, 1) == Join(z, z);
    assert NextLevel(sha, a) == [p, q] == NextLevel(sha, b);
    assert PairBytes([x, y], 0) == Join(x, y);
    assert NextLevel(sha, [x, y]) == [p];
  }

  // ---------- the promoting tree ----------

  function FullPair(hs: seq<Hash32>, i: nat): (s: seq<byte>)
    requires 2 * i + 1 < |hs|
  {
    Join(hs[2 * i], hs[2 * i + 1])
  }

  function PromotedParent(sha: Sha, hs: seq<Hash32>, i: nat): Hash32
    requires 2 * i < |hs|
  {
    if 2 * i + 1 < |hs| then sha(FullPair(hs, i)) else hs[2 * i]
  }

  function NextPromoted(sha: Sha, hs: seq<Hash32>): (next: seq<Hash32>)
    ensures |next| == (|hs| + 1) / 2
  {
    seq((|hs| + 1) / 2, i requires 0 <= i < (|hs| + 1) / 2 => PromotedParent(sha, hs, i))
  }

  function PromotedRoot(sha: Sha, hs: seq<Hash32>): Hash32
    decreases |hs|
  {
    if hs == [] then ZeroHash() else if |hs| == 1 then hs[0] else PromotedRoot(sha, NextPromoted(sha, hs))
  }

  ghost function PromotedLevelInputs(hs: seq<Hash32>): set<seq<byte>> {
    set i | 0 <= i < |hs| / 2 :: FullPair(hs, i)
  }

  ghost function PromotedInputs(sha: Sha, hs: seq<Hash32>): set<seq<byte>>
    decreases |hs|
  {
    if |hs| <= 1 then {} else PromotedLevelInputs(hs) + PromotedInputs(sha, NextPromoted(sha, hs))
  }

  lemma PromotedParentInjective(sha: Sha, a: seq<Hash32>, b: seq<Hash32>, i: nat)
    requires |a| == |b| && 2 * i < |a|
    requires CollisionFree(sha, PromotedLevelInputs(a) + PromotedLevelInputs(b))
    requires PromotedParent(sha, a, i) == PromotedParent(sha, b, i)
    ensures a[2 * i] == b[2 * i] && (2 * i + 1 < |a| ==> a[2 * i + 1] == b[2 * i + 1])
  {
    if 2 * i + 1 < |a| {
      var x, y := FullPair(a, i), FullPair(b, i);
      assert x in PromotedLevelInputs(a) && y in PromotedLevelInputs(b);
      assert x[..32] == a[2 * i] && x[32..] == a[2 * i + 1] && y[..32] == b[2 * i] && y[32..] == b[2 * i + 1];
    }
  }

  lemma PromotedLevelInjective(sha: Sha, a: seq<Hash32>, b: seq<Hash32>)
    requires |a| == |b| && CollisionFree(sha, PromotedLevelInputs(a) + PromotedLevelInputs(b))
    requires NextPromoted(sha, a) == NextPromoted(sha, b)
    ensures a == b
  {
    forall k | 0 <= k < |a| ensures a[k] == b[k] {
      assert NextPromoted(sha, a)[k / 2] == NextPromoted(sha, b)[k / 2];
      PromotedParentInjective(sha, a, b, k / 2);
      assert k == 2 * (k / 2) || k == 2 * (k / 2) + 1;
    }
  }

  /** The promoting tree is injective on lists of equal length. */
  lemma {:induction false} PromotedRootDeterminesLeaves(sha: Sha, a: seq<Hash32>, b: seq<Hash32>)
    requires |a| == |b|
    requires CollisionFree(sha, PromotedInputs(sha, a) + PromotedInputs(sha, b))
    ensures PromotedRoot(sha, a) == PromotedRoot(sha, b) <==> a == b
    decreases |a|
  {
    if |a| > 1 {
      PromotedRootDeterminesLeaves(sha, NextPromoted(sha, a), NextPromoted(sha, b));
      if PromotedRoot(sha, a) == PromotedRoot(sha, b) {
        PromotedLevelInjective(sha, a, b);
      }
    }
  }
}
