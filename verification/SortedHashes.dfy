/** A set of hashes has exactly one ascending list, however its elements are visited. */
module SortedHashes {
  import opened Bytes
  import opened Merkle

  ghost predicate Ascending(v: seq<Hash32>) {
    forall i, j :: 0 <= i < j < |v| ==> ValueBE(v[i]) < ValueBE(v[j])
  }

  ghost function Elements(v: seq<Hash32>): set<Hash32> { set h | h in v }

  lemma AscendingDistinct(v: seq<Hash32>)
    requires Ascending(v)
    ensures Distinct(v)
  {
    forall i, j | 0 <= i < j < |v| ensures v[i] != v[j] {
      assert ValueBE(v[i]) < ValueBE(v[j]);
    }
  }

  lemma FirstIsLeast(a: seq<Hash32>, b: seq<Hash32>)
    requires Ascending(a) && Ascending(b) && a != [] && b != [] && Elements(a) == Elements(b)
    ensures a[0] == b[0]
  {
    assert a[0] in Elements(a) && b[0] in Elements(b);
    var i :| 0 <= i < |b| && b[i] == a[0];
    var j :| 0 <= j < |a| && a[j] == b[0];
  }

  lemma TailElements(v: seq<Hash32>)
    requires Ascending(v) && v != []
    ensures Ascending(v[1..]) && Elements(v[1..]) == Elements(v) - {v[0]}
  {
    assert v == [v[0]] + v[1..];
    assert v[0] !in v[1..];
  }

  lemma {:induction false} AscendingUnique(a: seq<Hash32>, b: seq<Hash32>)
    requires Ascending(a) && Ascending(b) && Elements(a) == Elements(b)
    ensures a == b
  {
    assert a != [] ==> a[0] in Elements(a);
    assert b != [] ==> b[0] in Elements(b);
    if a != [] {
      FirstIsLeast(a, b);
      TailElements(a);
      TailElements(b);
      AscendingUnique(a[1..], b[1..]);
      assert a == [a[0]] + a[1..] && b == [b[0]] + b[1..];
    }
  }

  /** Places a hash in an ascending list by the derived byte-array order. */
  function Insert(v: seq<Hash32>, h: Hash32): (w: seq<Hash32>) {
    if v == [] || LexLeq(h, v[0]) then [h] + v else [v[0]] + Insert(v[1..], h)
  }

  lemma {:induction false} InsertElements(v: seq<Hash32>, h: Hash32)
    ensures Elements(Insert(v, h)) == Elements(v) + {h} && |Insert(v, h)| == |v| + 1
  {
    if v != [] && !LexLeq(h, v[0]) {
      InsertElements(v[1..], h);
      assert forall x :: x in Insert(v, h) <==> x == v[0] || x in Elements(Insert(v[1..], h));
      assert forall x :: x in v <==> x == v[0] || x in Elements(v[1..]);
    }
  }

  lemma {:induction false} InsertAscending(v: seq<Hash32>, h: Hash32)
    requires Ascending(v) && h !in v
    ensures Ascending(Insert(v, h))
  {
    hide LexLeq, ValueBE;
    if v != [] {
      LexIsNumeric(h, v[0]);
      if !LexLeq(h, v[0]) {
        var w := Insert(v[1..], h);
        InsertAscending(v[1..], h);
        InsertElements(v[1..], h);
        forall i | 0 <= i < |w| ensures ValueBE(v[0]) < ValueBE(w[i]) {
          assert w[i] in Elements(w);
        }
      } else {
        assert v[0] in v;
      }
    }
  }

  lemma Inserted(v: seq<Hash32>, h: Hash32)
    requires Ascending(v) && h !in Elements(v)
    ensures Ascending(Insert(v, h)) && Elements(Insert(v, h)) == Elements(v) + {h} && |Insert(v, h)| == |v| + 1
  {
    InsertAscending(v, h);
    InsertElements(v, h);
  }

  /** The ascending list of a set; some ascending list exists, and by AscendingUnique it is the only one. */
  ghost function Sorted(s: set<Hash32>): (v: seq<Hash32>)
    ensures Ascending(v) && Elements(v) == s && |v| == |s|
  {
    if s == {} then []
    else
      var h :| h in s;
      var v := Sorted(s - {h});
      assert Elements(v) + {h} == s;
      Inserted(v, h);
      Insert(v, h)
  }

  /** Collecting a hash set in any order and sorting it gives the one ascending list. */
  method CollectSorted(s: set<Hash32>) returns (v: seq<Hash32>)
    ensures v == Sorted(s)
  {
    v := [];
    var rest := s;
    while rest != {}
      invariant rest <= s && Ascending(v) && Elements(v) == s - rest
      decreases |rest|
    {
      var h :| h in rest;
      assert h !in Elements(v);
      InsertAscending(v, h);
      InsertElements(v, h);
      v := Insert(v, h);
      rest := rest - {h};
    }
    AscendingUnique(v, Sorted(s));
  }

  /** What two nodes compare: the root over the ascending list of share hashes. */
  ghost function CommitRoot(sha: Sha, s: set<Hash32>): Hash32 { Root(sha, Sorted(s)) }

  /** The commitment determines the set of hashes among sets whose trees have the same height. */
  lemma CommitmentBinds(sha: Sha, s: set<Hash32>, t: set<Hash32>)
    requires s != {} && t != {} && Height(|s|) == Height(|t|)
    requires CollisionFree(sha, HashedInputs(sha, Sorted(s)) + HashedInputs(sha, Sorted(t)))
    ensures CommitRoot(sha, s) == CommitRoot(sha, t) <==> s == t
  {
    AscendingDistinct(Sorted(s));
    AscendingDistinct(Sorted(t));
    RootDeterminesDistinctLeaves(sha, Sorted(s), Sorted(t));
  }

  /** When the hashes come from strings that are no pairs of nodes, the commitment determines the set among all
      sets, of any size. */
  lemma CommitmentOfSources(sha: Sha, s: set<Hash32>, t: set<Hash32>, sources: set<seq<byte>>)
    requires s != {} && t != {} && forall h :: h in s || h in t ==> HashOfSome(sha, h, sources)
    requires CollisionFree(sha, HashedInputs(sha, Sorted(s)) + HashedInputs(sha, Sorted(t)) + sources)
    ensures CommitRoot(sha, s) == CommitRoot(sha, t) <==> s == t
  {
    hide HashOfSome, CollisionFree, Root, HashedInputs, Ascending;
    assert forall i :: 0 <= i < |s| ==> Sorted(s)[i] in Elements(Sorted(s));
    assert forall i :: 0 <= i < |t| ==> Sorted(t)[i] in Elements(Sorted(t));
    RootsEqualIffSameTree(sha, Sorted(s), Sorted(t), sources);
    AscendingDistinct(Sorted(s));
    AscendingDistinct(Sorted(t));
    if Filled(Sorted(s)) == Filled(Sorted(t)) {
      if |s| <= |t| { FilledOfDistinct(Sorted(s), Sorted(t)); } else { FilledOfDistinct(Sorted(t), Sorted(s)); }
    }
  }

  /** The same for the promoting tree, between sets of the same size. */
  lemma PromotedCommitmentBinds(sha: Sha, s: set<Hash32>, t: set<Hash32>)
    requires |s| == |t|
    requires CollisionFree(sha, PromotedInputs(sha, Sorted(s)) + PromotedInputs(sha, Sorted(t)))
    ensures PromotedRoot(sha, Sorted(s)) == PromotedRoot(sha, Sorted(t)) <==> s == t
  {
    PromotedRootDeterminesLeaves(sha, Sorted(s), Sorted(t));
  }
}
