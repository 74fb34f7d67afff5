/** Exactly which blocks of a call are accepted, with which error the first other one is refused, and what is on
    record of the hashes. */
module SyncAcceptance {
  import opened Bytes
  import opened Merkle
  import opened Blocks
  import opened ChainSync
  import Codec

  /** The header a block of the call has to follow: the one before it in the call, or the last one of the local
      chain, or none. */
  function Predecessor(s: State, bs: seq<Block>, i: nat): Option<Header>
    requires i < |bs|
  {
    if i > 0 then Some(bs[i - 1].header)
    else if s.chain != [] then Some(s.chain[|s.chain| - 1])
    else None
  }

  ghost predicate LinksTo(c: Hashing, h: Header, before: Option<Header>) {
    h.prevHash == match before
      case None => seq(32, _ => 0)
      case Some(p) => c.pow(Codec.HeaderBytes(p))
  }

  ghost predicate Timely(h: Header, before: Option<Header>, now: nat) {
    h.timestamp <= now + 7200 && (before.Some? ==> before.value.timestamp < h.timestamp)
  }

  ghost predicate WellSigned(c: Hashing, b: Block) {
    b.signature.Some? && b.pubkey.Some? ==>
      c.verifySignature(b.pubkey.value, b.signature.value, c.pow(Codec.HeaderBytes(b.header)))
  }

  ghost predicate WorkDone(c: Hashing, h: Header) {
    ValueBE(c.pow(Codec.HeaderBytes(h))) <= ValueBE(h.difficulty)
  }

  /** Everything a block needs to follow a header. */
  ghost predicate Follows(c: Hashing, b: Block, before: Option<Header>, now: nat) {
    && LinksTo(c, b.header, before)
    && WorkDone(c, b.header)
    && Timely(b.header, before, now)
    && b.header.merkleRoot == Root(c.sha, TxIds(c.sha, b.transactions))
    && WellSigned(c, b)
  }

  /** The error of the first of these that is missing. */
  ghost predicate Lacks(c: Hashing, b: Block, before: Option<Header>, now: nat, e: SyncError) {
    if !LinksTo(c, b.header, before) then e == InvalidPrevHash
    else if !WorkDone(c, b.header) then e == DifficultyNotMet
    else if !Timely(b.header, before, now) then e == InvalidTimestamp
    else if b.header.merkleRoot != Root(c.sha, TxIds(c.sha, b.transactions)) then e == InvalidMerkleRoot
    else !WellSigned(c, b) && e == BadSignature
  }

  function LastOf(s: State): Option<Header> { if s.chain == [] then None else Some(s.chain[|s.chain| - 1]) }

  lemma LastStored(s: State)
    requires Stored(s) && s.chain != []
    ensures |s.chain| in s.blocks && s.blocks[|s.chain|].header == s.chain[|s.chain| - 1]
  {
    assert StoredAt(s, |s.chain| - 1);
  }

  /** One block against the last header of a stored chain. */
  lemma NextBlock(c: Hashing, s: State, b: Block, now: nat, e: SyncError)
    requires Stored(s)
    ensures BlockError(c, s, b, now) == None <==> Follows(c, b, LastOf(s), now)
    ensures BlockError(c, s, b, now) == Some(e) <==> Lacks(c, b, LastOf(s), now, e)
  {
    hide Root, TxIds, ValueBE, Codec.HeaderBytes, Stored;
    if s.chain != [] { LastStored(s); }
    SameChecks(c, s, b, now);
    hide LinksTo, WorkDone, Timely, WellSigned, Meets, HashOf, SignatureFails;
  }

  lemma SameChecks(c: Hashing, s: State, b: Block, now: nat)
    ensures Meets(c, b.header) <==> WorkDone(c, b.header)
    ensures SignatureFails(c, b) <==> !WellSigned(c, b)
  {
    hide ValueBE, Codec.HeaderBytes;
  }

  lemma AllStored(c: Hashing, s: State, bs: seq<Block>)
    requires Stored(s)
    ensures Stored(AcceptAll(c, s, bs))
    ensures bs != [] ==> LastOf(AcceptAll(c, s, bs)) == Some(bs[|bs| - 1].header)
    ensures bs == [] ==> AcceptAll(c, s, bs) == s
  {
    hide AcceptAll, HashOf;
    AcceptAllShape(c, s, bs);
    NoneAccepted(c, s);
    var next := AcceptAll(c, s, bs);
    forall k | 0 <= k < |next.chain| ensures StoredAt(next, k) {
      if k < |s.chain| {
        assert StoredAt(s, k);
        assert next.chain[k] == s.chain[k];
      } else {
        var i := k - |s.chain|;
        assert ChainSync.Holds(next.blocks, |s.chain| + 1 + i, bs[i]);
        assert next.chain[k] == Headers(bs)[i];
      }
    }
  }

  lemma NoneAccepted(c: Hashing, s: State)
    ensures AcceptAll(c, s, []) == s
  {
  }

  lemma PassesIff(c: Hashing, s: State, bs: seq<Block>, clock: seq<nat>, i: nat)
    requires Stored(s) && i < |bs| == |clock|
    ensures Passes(c, s, bs, clock, i) <==> Follows(c, bs[i], Predecessor(s, bs, i), clock[i])
  {
    hide Stored, AcceptAll, BlockError, Follows, Lacks;
    AllStored(c, s, bs[..i]);
    NextBlock(c, AcceptAll(c, s, bs[..i]), bs[i], clock[i], BadSignature);
  }

  /** A block of a call is accepted exactly if it and all blocks before it follow their predecessors. */
  lemma AcceptedIff(c: Hashing, s: State, bs: seq<Block>, clock: seq<nat>, i: nat)
    requires Stored(s) && i < |bs| == |clock|
    ensures i < Accepted(c, s, bs, clock)
       <==> forall j :: 0 <= j <= i ==> Follows(c, bs[j], Predecessor(s, bs, j), clock[j])
  {
    hide Stored, Accepted, Passes, Follows, Predecessor;
    var n := Accepted(c, s, bs, clock);
    AcceptedIsFirstFailure(c, s, bs, clock, n);
    forall j | 0 <= j < |bs| ensures Passes(c, s, bs, clock, j) <==> Follows(c, bs[j], Predecessor(s, bs, j), clock[j]) {
      PassesIff(c, s, bs, clock, j);
    }
    if n <= i { assert !Passes(c, s, bs, clock, n); }
  }

  /** The error a call ends with is that of the first thing the first other block lacks. */
  lemma RefusedIff(c: Hashing, s: State, bs: seq<Block>, clock: seq<nat>, e: SyncError)
    requires Stored(s) && |bs| == |clock| && Accepted(c, s, bs, clock) < |bs|
    ensures var n := Accepted(c, s, bs, clock);
      BlockError(c, AcceptAll(c, s, bs[..n]), bs[n], clock[n]) == Some(e) <==>
      Lacks(c, bs[n], Predecessor(s, bs, n), clock[n], e)
  {
    hide Stored, AcceptAll, BlockError, Follows, Lacks, Accepted;
    var n := Accepted(c, s, bs, clock);
    AllStored(c, s, bs[..n]);
    NextBlock(c, AcceptAll(c, s, bs[..n]), bs[n], clock[n], e);
  }

  // ---------- the hashes on record ----------

  /** A hash is on record with the height of the last block that has it, or as it was before if none has. */
  ghost predicate RecordedLast(before: map<Hash32, nat>, after: map<Hash32, nat>, hs: seq<Hash32>, first: nat, h: Hash32) {
    if h in hs then exists i :: IsLast(hs, i, h) && h in after && after[h] == first + i
    else (h in after <==> h in before) && (h in before ==> after[h] == before[h])
  }

  ghost predicate IsLast(hs: seq<Hash32>, i: nat, h: Hash32) {
    i < |hs| && hs[i] == h && h !in hs[i + 1..]
  }

  lemma OneMoreRecorded(before: map<Hash32, nat>, after: map<Hash32, nat>, hs: seq<Hash32>, more: seq<Hash32>,
                        next: map<Hash32, nat>, last: Hash32, first: nat, h: Hash32)
    requires RecordedLast(before, after, hs, first, h)
    requires more == hs + [last] && next == after[last := first + |hs|]
    ensures RecordedLast(before, next, more, first, h)
  {
    if last == h {
      assert IsLast(more, |hs|, h);
    } else if h in hs {
      var i :| IsLast(hs, i, h) && h in after && after[h] == first + i;
      assert more[i + 1..] == hs[i + 1..] + [last];
      assert IsLast(more, i, h);
    }
  }

  function HashesOf(c: Hashing, bs: seq<Block>): seq<Hash32> {
    seq(|bs|, i requires 0 <= i < |bs| => HashOf(c, bs[i].header))
  }

  /** Every accepted block's hash is on record with its height, the last one's if two have the same hash, and the
      other hashes are as they were. */
  lemma {:induction false} HashesRecorded(c: Hashing, s: State, bs: seq<Block>, h: Hash32)
    ensures RecordedLast(s.hashes, AcceptAll(c, s, bs).hashes, HashesOf(c, bs), |s.chain| + 1, h)
  {
    hide *;
    if bs == [] {
      NoneAccepted(c, s);
      NoHashes(c);
      NoneRecorded(s.hashes, HashesOf(c, []), |s.chain| + 1, h);
    } else {
      var n := |bs| - 1;
      HashesRecorded(c, s, bs[..n], h);
      LastRecorded(c, s, bs);
      LastHash(c, bs);
      OneMoreRecorded(s.hashes, AcceptAll(c, s, bs[..n]).hashes, HashesOf(c, bs[..n]), HashesOf(c, bs),
                      AcceptAll(c, s, bs).hashes, HashOf(c, bs[n].header), |s.chain| + 1, h);
    }
  }

  lemma NoHashes(c: Hashing)
    ensures HashesOf(c, []) == []
  {
  }

  lemma LastHash(c: Hashing, bs: seq<Block>)
    requires bs != []
    ensures var n := |bs| - 1;
      |HashesOf(c, bs[..n])| == n && HashesOf(c, bs) == HashesOf(c, bs[..n]) + [HashOf(c, bs[n].header)]
  {
    hide HashOf;
  }

  lemma NoneRecorded(before: map<Hash32, nat>, hs: seq<Hash32>, first: nat, h: Hash32)
    requires hs == []
    ensures RecordedLast(before, before, hs, first, h)
  {
  }

  lemma LastRecorded(c: Hashing, s: State, bs: seq<Block>)
    requires bs != []
    ensures var n := |bs| - 1;
      AcceptAll(c, s, bs).hashes == AcceptAll(c, s, bs[..n]).hashes[HashOf(c, bs[n].header) := |s.chain| + 1 + n]
  {
    hide HashOf, ApplyTxs;
    AcceptAllShape(c, s, bs[..|bs| - 1]);
  }
}
